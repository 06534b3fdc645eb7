/**
 * The life of a SCSI command (osm/linux/osm_linux.c): hpt_queuecommand accepts, finishes or rejects
 * it, LDM may have its DMA list built any number of times, and a completion callback ends it.
 */
module CommandLedger {
  import opened AtaRegisters
  import opened BlockAddressing
  import opened Collections
  import opened Words

  // ----- the entities

  datatype ScsiResult = DidOk | BadTarget | NoConnect | BusBusy | DidReset | DidAbort | Good
                      | CheckCondition(key: Byte, asc: Byte)

  /** pCmd->done */
  datatype Callback = CmdDone | StartStopDone

  datatype Direction = NoData | DataIn | DataOut

  datatype Kind = ReadWrite(ide: Request, dir: Direction) | Flush | Standby
                | Passthrough(pass: Direction, regs: Registers, sectors: Word16)

  /** A COMMAND after it was queued: its SCSI command, and whether buildsgl is set. */
  datatype Command = Command(priv: nat, cdb: Cdb, kind: Kind, callback: Callback, sgl: bool)

  /** The commands per request of a transform's source and target, when it has a target. */
  datatype Transform = Transform(sourceCmds: nat, targetCmds: nat)

  /** The target as far as the branches look at it. */
  datatype Vdev = Vdev(online: bool, isArray: bool, shift: nat, capacity: Word64,
                       cmdsPerRequest: nat, transform: Option<Transform>)

  /**
   * What the call finds around it: address, target, the command ldm_alloc_cmds hands out (0 if it
   * fails), the length of the data and of its first buffer, and what the mode page code leaves as result.
   */
  datatype Env = Env(channel: nat, lun: nat, target: Option<Vdev>, alloc: nat, dataLen: nat, bufLen: nat,
                     modeSense: ScsiResult)

  /**
   * What happened so far: how often each SCSI command was accepted and finished (scsi_done), each
   * COMMAND allocated and freed, and each SCSI command's data mapped for DMA and unmapped.
   */
  datatype Book = Book(accepted: multiset<nat>, finished: multiset<nat>, taken: multiset<nat>,
                       freed: multiset<nat>, maps: multiset<nat>, unmaps: multiset<nat>)

  /** Once more. */
  function Plus(m: multiset<nat>, n: nat): multiset<nat> { m[n := m[n] + 1] }

  /**
   * Commands in flight, the COMMAND that hpt_queuecommand has allocated and neither queued nor freed
   * yet, the SCSI commands whose `mapped` flag is set, and the book.
   */
  datatype Desk = Desk(cmds: map<nat, Command>, open: Option<nat>, mapped: set<nat>, book: Book)

  function Privs(cmds: map<nat, Command>): set<nat>
  {
    set c | c in cmds :: cmds[c].priv
  }

  function Opened(open: Option<nat>): set<nat>
  {
    if open.Some? then {open.value} else {}
  }

  // ----- steps

  datatype Step =
    | Alloc(cmd: nat, count: nat)                    // ldm_alloc_cmds
    | GiveBack(cmd: nat)                             // ldm_free_cmds at label error
    | Finish(id: nat)                                // scsi_done before hpt_queuecommand returns
    | Queue(id: nat, cmd: nat, command: Command)     // ldm_queue_cmd
    | BuildSgl(cmd: nat, logical: bool, nseg: nat)   // os_buildsgl
    | Complete(cmd: nat)                             // the completion callback

  /** os_cmddone unmaps, the stop branch of hpt_scsi_start_stop_done does not. */
  predicate Unmaps(c: Command)
  {
    c.callback == CmdDone || c.cdb[4] % 2 == 1
  }

  /** Only a START STOP UNIT has the callback of its own, and one that is not unmapped has no DMA list. */
  predicate Proper(c: Command)
  {
    (c.callback == StartStopDone ==> c.cdb[0] == 0x1b) && (!Unmaps(c) ==> !c.sgl)
  }

  /** What a step leads to, when it is possible. */
  function Next(d: Desk, s: Step): Option<Desk>
  {
    var book := d.book;
    match s
    case Alloc(c, count) =>
      if d.open.None? && c !in d.cmds then
        Some(d.(open := Some(c), book := book.(taken := Plus(book.taken, c))))
      else None
    case GiveBack(c) =>
      if d.open == Some(c) then
        Some(d.(open := None, book := book.(freed := Plus(book.freed, c))))
      else None
    case Finish(id) =>
      if d.open.None? then
        Some(d.(book := book.(accepted := Plus(book.accepted, id), finished := Plus(book.finished, id))))
      else None
    case Queue(id, c, command) =>
      if d.open == Some(c) && id !in Privs(d.cmds) && command.priv == id && Proper(command) then
        Some(Desk(d.cmds[c := command], None, d.mapped - {id}, book.(accepted := Plus(book.accepted, id))))
      else None
    case BuildSgl(c, logical, nseg) =>
      if c in d.cmds && d.cmds[c].sgl then
        var id := d.cmds[c].priv;
        Some(if logical || id in d.mapped || nseg == 0 then d
             else d.(mapped := d.mapped + {id}, book := book.(maps := Plus(book.maps, id))))
      else None
    case Complete(c) =>
      if c in d.cmds then
        var id := d.cmds[c].priv;
        var done := book.(freed := Plus(book.freed, c), finished := Plus(book.finished, id));
        Some(Desk(d.cmds - {c}, d.open, d.mapped,
                  if id in d.mapped && Unmaps(d.cmds[c]) then done.(unmaps := Plus(done.unmaps, id)) else done))
      else None
  }

  // ----- the balance

  /** Each n was begun as often as it was ended, plus once if it is open. */
  ghost predicate Bal(begun: multiset<nat>, ended: multiset<nat>, open: set<nat>)
  {
    forall n: nat :: begun[n] == ended[n] + if n in open then 1 else 0
  }

  lemma BalBegin(begun: multiset<nat>, ended: multiset<nat>, open: set<nat>, n: nat)
    requires Bal(begun, ended, open) && n !in open
    ensures Bal(Plus(begun, n), ended, open + {n})
  {
  }

  lemma BalEnd(begun: multiset<nat>, ended: multiset<nat>, open: set<nat>, n: nat)
    requires Bal(begun, ended, open) && n in open
    ensures Bal(begun, Plus(ended, n), open - {n})
  {
  }

  lemma BalBoth(begun: multiset<nat>, ended: multiset<nat>, open: set<nat>, n: nat)
    requires Bal(begun, ended, open)
    ensures Bal(Plus(begun, n), Plus(ended, n), open)
  {
  }

  /**
   * Every accepted SCSI command has been finished once, or is in flight and not finished; the same
   * for COMMANDs taken from LDM and their release, and for DMA mappings and their removal.
   */
  ghost predicate Balanced(d: Desk)
  {
    && Bal(d.book.accepted, d.book.finished, Privs(d.cmds))
    && Bal(d.book.taken, d.book.freed, d.cmds.Keys + Opened(d.open))
    && Bal(d.book.maps, d.book.unmaps, Privs(d.cmds) * d.mapped)
  }

  /** One command in flight for each SCSI command, and no mapping that its callback would forget. */
  ghost predicate Sound(d: Desk)
  {
    && d.cmds.Keys !! Opened(d.open)
    && (forall b, c :: b in d.cmds && c in d.cmds && b != c ==> d.cmds[b].priv != d.cmds[c].priv)
    && (forall c :: c in d.cmds ==> Proper(d.cmds[c]))
    && (forall c :: c in d.cmds && !Unmaps(d.cmds[c]) ==> d.cmds[c].priv !in d.mapped)
  }

  lemma PrivsAdded(cmds: map<nat, Command>, c: nat, command: Command)
    requires c !in cmds
    ensures Privs(cmds[c := command]) == Privs(cmds) + {command.priv}
  {
    var cmds' := cmds[c := command];
    forall id
      ensures id in Privs(cmds') <==> id in Privs(cmds) || id == command.priv
    {
      if id in Privs(cmds) {
        var b :| b in cmds && cmds[b].priv == id;
        assert b in cmds' && cmds'[b].priv == id;
      }
      assert c in cmds' && cmds'[c].priv == command.priv;
    }
  }

  lemma PrivsRemoved(d: Desk, c: nat)
    requires Sound(d) && c in d.cmds
    ensures Privs(d.cmds - {c}) == Privs(d.cmds) - {d.cmds[c].priv}
  {
    var cmds' := d.cmds - {c};
    forall id
      ensures id in Privs(cmds') <==> id in Privs(d.cmds) && id != d.cmds[c].priv
    {
      if id in Privs(d.cmds) && id != d.cmds[c].priv {
        var b :| b in d.cmds && d.cmds[b].priv == id;
        assert b in cmds' && cmds'[b].priv == id;
      }
    }
  }

  lemma NextKeepsSound(d: Desk, s: Step)
    requires Sound(d) && Next(d, s).Some?
    ensures Sound(Next(d, s).value)
  {
    if s.Queue? {
      assert forall c :: c in d.cmds ==> d.cmds[c].priv in Privs(d.cmds);
    }
  }

  lemma NextKeepsBalance(d: Desk, s: Step)
    requires Sound(d) && Balanced(d) && Next(d, s).Some?
    ensures Balanced(Next(d, s).value)
  {
    hide Bal, Plus;
    var d', book, held := Next(d, s).value, d.book, d.cmds.Keys + Opened(d.open);
    match s
    case Alloc(c, count) =>
      BalBegin(book.taken, book.freed, held, c);
      assert d'.cmds.Keys + Opened(d'.open) == held + {c};
    case GiveBack(c) =>
      BalEnd(book.taken, book.freed, held, c);
      assert d'.cmds.Keys + Opened(d'.open) == held - {c};
    case Finish(id) =>
      BalBoth(book.accepted, book.finished, Privs(d.cmds), id);
    case Queue(id, c, command) =>
      PrivsAdded(d.cmds, c, command);
      BalBegin(book.accepted, book.finished, Privs(d.cmds), id);
      assert d'.cmds.Keys + Opened(d'.open) == held;
      assert Privs(d'.cmds) * d'.mapped == Privs(d.cmds) * d.mapped;
    case BuildSgl(c, logical, nseg) =>
      var id := d.cmds[c].priv;
      assert id in Privs(d.cmds);
      if d' != d {
        BalBegin(book.maps, book.unmaps, Privs(d.cmds) * d.mapped, id);
        assert Privs(d'.cmds) * d'.mapped == Privs(d.cmds) * d.mapped + {id};
      }
    case Complete(c) =>
      CompleteKeepsBalance(d, c);
  }

  lemma CompleteKeepsBalance(d: Desk, c: nat)
    requires Sound(d) && Balanced(d) && c in d.cmds
    ensures Balanced(Next(d, Complete(c)).value)
  {
    hide Bal, Plus;
    var d', book, held := Next(d, Complete(c)).value, d.book, d.cmds.Keys + Opened(d.open);
    var id, open := d.cmds[c].priv, Privs(d.cmds) * d.mapped;
    assert id in Privs(d.cmds);
    PrivsRemoved(d, c);
    BalEnd(book.accepted, book.finished, Privs(d.cmds), id);
    BalEnd(book.taken, book.freed, held, c);
    assert d'.cmds.Keys + Opened(d'.open) == held - {c};
    assert Privs(d'.cmds) * d'.mapped == open - {id};
    if id in d.mapped {
      BalEnd(book.maps, book.unmaps, open, id);
    } else {
      assert open - {id} == open;
    }
  }

  // ----- whole runs

  const EMPTY_BOOK := Book(multiset{}, multiset{}, multiset{}, multiset{}, multiset{}, multiset{})
  const EMPTY_DESK := Desk(map[], None, {}, EMPTY_BOOK)

  /** The state after these steps, if each of them was possible. */
  function Run(steps: seq<Step>): Option<Desk>
  {
    if steps == [] then Some(EMPTY_DESK) else
      var before := Run(steps[..|steps| - 1]);
      if before.Some? then Next(before.value, steps[|steps| - 1]) else None
  }

  lemma RunSnoc(steps: seq<Step>, s: Step)
    requires Run(steps).Some?
    ensures Run(steps + [s]) == Next(Run(steps).value, s)
  {
    assert (steps + [s])[..|steps|] == steps;
  }

  lemma {:induction false} BalancedOverRuns(steps: seq<Step>)
    requires Run(steps).Some?
    ensures Sound(Run(steps).value) && Balanced(Run(steps).value)
  {
    if steps != [] {
      hide Next, Sound, Balanced;
      BalancedOverRuns(steps[..|steps| - 1]);
      NextKeepsSound(Run(steps[..|steps| - 1]).value, steps[|steps| - 1]);
      NextKeepsBalance(Run(steps[..|steps| - 1]).value, steps[|steps| - 1]);
    }
  }

  /**
   * Whenever nothing is in flight, over any run: scsi_done was called exactly once for each accepted
   * SCSI command, each COMMAND taken was freed exactly once, and each DMA mapping was undone exactly
   * once. No count of endings ever runs ahead.
   */
  lemma NothingLostAtRest(steps: seq<Step>)
    requires Run(steps).Some?
    ensures var book := Run(steps).value.book;
            forall n: nat :: book.finished[n] <= book.accepted[n] <= book.finished[n] + 1
                             && book.freed[n] <= book.taken[n] && book.unmaps[n] <= book.maps[n]
    ensures var d := Run(steps).value;
            d.cmds == map[] && d.open.None? ==>
              d.book.finished == d.book.accepted && d.book.freed == d.book.taken && d.book.unmaps == d.book.maps
  {
    BalancedOverRuns(steps);
    var d := Run(steps).value;
    hide Run;
    var book := d.book;
    assert forall n: nat :: book.accepted[n] == book.finished[n] + if n in Privs(d.cmds) then 1 else 0;
    if d.cmds == map[] && d.open.None? {
      assert Privs(d.cmds) == {};
      assert forall n: nat :: book.accepted[n] == book.finished[n];
      assert forall n: nat :: book.taken[n] == book.freed[n];
      assert forall n: nat :: book.maps[n] == book.unmaps[n];
    }
  }

  // ----- what hpt_queuecommand decides

  datatype Outcome =
    | Rejected                        // SCSI_MLQUEUE_HOST_BUSY
    | Finished(tried: Option<nat>)    // scsi_done before returning, perhaps after giving a command back
    | Queued(cmd: nat, command: Command)

  /** The steps a call makes: a rejected SCSI command makes none, and so is never finished. */
  function StepsOf(id: nat, count: nat, outcome: Outcome): seq<Step>
  {
    match outcome
    case Rejected => []
    case Finished(None) => [Finish(id)]
    case Finished(Some(c)) => [Alloc(c, count), GiveBack(c), Finish(id)]
    case Queued(c, command) => [Alloc(c, count), Queue(id, c, command)]
  }

  predicate Bit(b: Byte, weight: nat)
    requires weight in {1, 2}
    ensures Bit(b, weight) <==> if weight == 1 then b % 2 >= 1 else b % 4 >= 2
  {
    if weight == 1 then b % 2 == 1 else b / 2 % 2 == 1
  }

  predicate IsPassthrough(cdb: Cdb) { cdb[0] == 0x85 || cdb[0] == 0xa1 }

  /**
   * Pass-through the driver refuses: a multiple count for a command that is not a multiple transfer,
   * a change of transfer mode, or a direction bit against the protocol.
   */
  predicate AtaRefused(cdb: Cdb)
  {
    || (MultipleCount(cdb) != 0 && FromCdb(cdb).command !in {0xc4, 0x29, 0xc5, 0x39, 0xce})
    || (FromCdb(cdb).features == 0x03 && FromCdb(cdb).command == 0xef)
    || (Protocol(cdb) == 4 && TransferLength(cdb) != 0 && !ToHost(cdb))
    || (Protocol(cdb) == 5 && TransferLength(cdb) != 0 && ToHost(cdb))
  }

  /** The command is for an online device of this host. */
  predicate Addressed(env: Env)
  {
    env.channel == 0 && env.lun == 0 && env.target.Some? && env.target.value.online
  }

  /** The requests for which a COMMAND is asked from LDM. */
  predicate NeedsCommand(cdb: Cdb, env: Env)
  {
    Addressed(env)
    && var onArray := env.target.value.isArray;
       || WidthOf(cdb[0]).Some?
       || cdb[0] in {0x35, 0x91}
       || (IsPassthrough(cdb) && !onArray && 3 <= Protocol(cdb) <= 5)
       || (cdb[0] == 0x1b && !onArray && !Bit(cdb[4], 1) && !Bit(cdb[4], 2) && cdb[4] / 0x10 == 0)
  }

  /** A START STOP UNIT that asks for nothing but a start. */
  predicate StartOnly(cdb: Cdb)
  {
    Bit(cdb[4], 1) && !Bit(cdb[4], 2) && cdb[4] / 0x10 == 0
  }

  /** The buffer is long enough for the answer, and the driver has the page or service asked for. */
  predicate Answerable(cdb: Cdb, bufLen: nat)
  {
    || cdb[0] == 0x00
    || (cdb[0] == 0x25 && bufLen >= 8)
    || (cdb[0] == 0x9e && bufLen >= 12 && cdb[1] % 0x20 == 0x10)
    || (cdb[0] == 0x12 && bufLen >= 36 && (cdb[2] == 0 || (Bit(cdb[1], 1) && cdb[2] in {0x80, 0x83})))
  }

  /** Neither queued in any case nor answered from a mode page. */
  predicate Immediate(cdb: Cdb)
  {
    WidthOf(cdb[0]).None? && !IsPassthrough(cdb) && cdb[0] !in {0x1b, 0x35, 0x91, 0x1a, 0x5a}
  }

  predicate IsQueued(cdb: Cdb, env: Env)
  {
    NeedsCommand(cdb, env) && env.alloc != 0 && !(IsPassthrough(cdb) && AtaRefused(cdb))
  }

  /** Data moves in for protocol 4 (PIO data in), out for 5 (PIO data out), not at all for 3. */
  function AtaDirection(cdb: Cdb): Direction
  {
    if Protocol(cdb) == 4 then DataIn else if Protocol(cdb) == 5 then DataOut else NoData
  }

  /** log2 of the sectors in a block: only arrays have larger blocks than a sector. */
  function ShiftOf(target: Vdev): (shift: nat)
    ensures Pow2(shift) == if target.isArray then Pow2(target.shift) else 1
  {
    if target.isArray then target.shift else 0
  }

  /** The sector range and direction of a read, write or verify command. */
  function SectorsOf(cdb: Cdb, target: Vdev): (k: Kind)
    requires WidthOf(cdb[0]).Some?
    ensures k.ReadWrite?
    ensures k.dir == DataIn <==> cdb[0] % 0x20 == 0x08
    ensures k.dir == DataOut <==> cdb[0] % 0x20 == 0x0a
  {
    ReadWrite(Scale(Decode(WidthOf(cdb[0]).value, cdb), ShiftOf(target)),
              if cdb[0] in {0x28, 0x08, 0x88} then DataIn else if cdb[0] in {0x2a, 0x0a, 0x8a} then DataOut else NoData)
  }

  /** The sector count of a pass-through command is the data length, cut to 16 bits. */
  function PassthroughOf(cdb: Cdb, dataLen: nat): (k: Kind)
    ensures k.Passthrough?
    ensures k.sectors * 512 == dataLen <==> dataLen % 512 == 0 && dataLen < 512 * TWO16
  {
    Passthrough(AtaDirection(cdb), FromCdb(cdb), dataLen / 512 % TWO16)
  }

  /** What LDM is asked to do, and how the driver wants to hear of it. */
  function CommandOf(id: nat, cdb: Cdb, env: Env): Command
    requires env.target.Some?
  {
    if WidthOf(cdb[0]).Some? then Command(id, cdb, SectorsOf(cdb, env.target.value), CmdDone, true)
    else if IsPassthrough(cdb) then Command(id, cdb, PassthroughOf(cdb, env.dataLen), CmdDone, true)
    else if cdb[0] == 0x1b then Command(id, cdb, Standby, StartStopDone, false)
    else Command(id, cdb, Flush, CmdDone, false)
  }

  /**
   * What a queued command is in the standards' terms. READ is code 0x08 of its group and WRITE 0x0a; data
   * needs a DMA list; a pass-through command with a transfer length moves data as its T_DIR bit says
   * (SAT, section 12.2), never sets the transfer mode, and has a multiple count only for a multiple
   * transfer; only a plain stop of the motor has the callback that does not unmap.
   */
  ghost predicate Sensible(c: Command)
  {
    match c.kind
    case ReadWrite(ide, dir) =>
      && (dir == DataIn <==> c.cdb[0] % 0x20 == 0x08) && (dir == DataOut <==> c.cdb[0] % 0x20 == 0x0a)
      && GroupWidth(c.cdb[0]).Some? && c.sgl && c.callback == CmdDone
    case Passthrough(dir, regs, sectors) =>
      && c.cdb[0] in {0x85, 0xa1} && c.sgl && c.callback == CmdDone
      && (dir != NoData && TransferLength(c.cdb) != 0 ==> (dir == DataIn <==> ToHost(c.cdb)))
      && (dir == NoData <==> Protocol(c.cdb) == 3)
      && !(regs.command == 0xef && regs.features == 3)
      && (MultipleCount(c.cdb) != 0 ==> regs.command in {0xc4, 0x29, 0xc5, 0x39, 0xce})
    case Flush => c.cdb[0] in {0x35, 0x91} && !c.sgl && c.callback == CmdDone
    case Standby => c.cdb[0] == 0x1b && c.cdb[4] % 4 == 0 && c.cdb[4] < 0x10 && !c.sgl && c.callback == StartStopDone
  }

  lemma QueuedIsSensible(id: nat, cdb: Cdb, env: Env)
    requires IsQueued(cdb, env)
    ensures Sensible(CommandOf(id, cdb, env))
  {
    hide Decode, Scale, FromCdb;
    assert Bit(cdb[4], 1) || Bit(cdb[4], 2) || cdb[4] % 4 == 0;
  }

  /** No transfer or flush of an online device is turned away while a COMMAND is to be had. */
  lemma TransfersAreQueued(cdb: Cdb, env: Env)
    requires Addressed(env) && env.alloc != 0
    ensures GroupWidth(cdb[0]).Some? && cdb[0] % 0x20 in {0x08, 0x0a} ==> IsQueued(cdb, env)
    ensures cdb[0] in {0x13, 0x2f, 0x8f, 0x35, 0x91} ==> IsQueued(cdb, env)
  {
  }

  /** A pass-through command for a disk is turned away only for one of these reasons. */
  lemma PassthroughIsQueuedIff(cdb: Cdb, env: Env)
    requires Addressed(env) && env.alloc != 0 && cdb[0] in {0x85, 0xa1} && !env.target.value.isArray
    ensures var regs := FromCdb(cdb);
            IsQueued(cdb, env) <==>
              && Protocol(cdb) in {3, 4, 5}
              && (TransferLength(cdb) != 0 && Protocol(cdb) != 3 ==> (ToHost(cdb) <==> Protocol(cdb) == 4))
              && (MultipleCount(cdb) != 0 ==> regs.command in {0xc4, 0xc5, 0x29, 0x39, 0xce})
              && (regs.command == 0xef ==> regs.features != 3)
  {
    hide FromCdb;
  }

  /** READ CAPACITY is answered exactly when its reply fits the buffer. */
  lemma AnsweredIffFits(cdb: Cdb, env: Env)
    requires env.target.Some?
    ensures var capacity, shift := env.target.value.capacity, ShiftOf(env.target.value);
            && (cdb[0] == 0x25 ==> (Answerable(cdb, env.bufLen) <==> |ReadCapacity10(capacity, shift)| <= env.bufLen))
            && (cdb[0] == 0x9e && cdb[1] % 0x20 == 0x10 ==>
                  (Answerable(cdb, env.bufLen) <==> |ReadCapacity16(capacity, shift)| <= env.bufLen))
  {
    hide Pow2, Blocks, Low64, ToBytes, ReadCapacity10, ReadCapacity16;
    ReplyShape(env.target.value.capacity, ShiftOf(env.target.value));
    LongReplyShape(env.target.value.capacity, ShiftOf(env.target.value));
  }

  /** How many commands are asked for: data transfers and flushes may be redirected to a second device. */
  function AsksFor(cdb: Cdb, env: Env): nat
  {
    if env.target.None? then 0
    else if WidthOf(cdb[0]).Some? || cdb[0] in {0x35, 0x91} then DeviceCommands(env.target.value)
    else env.target.value.cmdsPerRequest
  }

  function DeviceCommands(target: Vdev): (n: nat)
    ensures target.isArray && target.transform.Some? ==>
              n >= target.transform.value.sourceCmds && n >= target.transform.value.targetCmds
              && n in {target.transform.value.sourceCmds, target.transform.value.targetCmds}
    ensures !(target.isArray && target.transform.Some?) ==> n == target.cmdsPerRequest
  {
    if target.isArray && target.transform.Some? then
      var t := target.transform.value;
      if t.sourceCmds > t.targetCmds then t.sourceCmds else t.targetCmds
    else target.cmdsPerRequest
  }

  /** The scsi_cmnd.result for a COMMAND result code (RETURN_* in inc/him.h). */
  function ResultOf(code: nat): ScsiResult
  {
    match code
    case 1 => DidOk
    case 2 => BadTarget
    case 5 => BusBusy
    case 7 => NoConnect
    case 11 => BusBusy
    case 13 => DidReset
    case _ => DidAbort
  }

  // ----- what READ CAPACITY promises

  /** A reply to READ CAPACITY that tells the number of blocks; 0xffffffff in the short one does not. */
  predicate Tells(cdb: Cdb, reply: seq<Byte>, blocks: int)
  {
    if cdb[0] == 0x25 then |reply| == 8 && BigEndian(reply[..4]) + 1 == blocks < TWO32
    else |reply| == 12 && BigEndian(reply[..8]) + 1 == blocks
  }

  /** What a successful READ CAPACITY puts into the data buffer. */
  ghost predicate ReplyOk(cdb: Cdb, env: Env, reply: seq<Byte>)
    requires env.target.Some?
  {
    var blocks := Blocks(env.target.value.capacity, ShiftOf(env.target.value));
    && |reply| <= env.bufLen && |reply| in {8, 12}
    && (cdb[0] == 0x25 ==> |reply| == 8 && (BigEndian(reply[..4]) == 0xffff_ffff <==> blocks >= TWO32 || blocks == 0))
    && (Tells(cdb, reply, blocks) <==> 0 < blocks && (cdb[0] == 0x25 ==> blocks < TWO32))
    && (BigEndian(reply[|reply| - 4..]) == 512 * Pow2(ShiftOf(env.target.value)) <==> ShiftOf(env.target.value) <= 6)
  }

  lemma ShortReplyOk(cdb: Cdb, env: Env)
    requires env.target.Some? && env.bufLen >= 8 && cdb[0] == 0x25
    ensures ReplyOk(cdb, env, ReadCapacity10(env.target.value.capacity, ShiftOf(env.target.value)))
  {
    hide Blocks, Pow2, BigEndian, ReadCapacity10, ShiftOf;
    ReadCapacity10Reply(env.target.value.capacity, ShiftOf(env.target.value));
    BlocksBound(env.target.value.capacity, ShiftOf(env.target.value), 0);
  }

  lemma LongReplyOk(cdb: Cdb, env: Env)
    requires env.target.Some? && env.bufLen >= 12 && cdb[0] == 0x9e
    ensures ReplyOk(cdb, env, ReadCapacity16(env.target.value.capacity, ShiftOf(env.target.value)))
  {
    hide Blocks, Pow2, BigEndian, ReadCapacity16, ShiftOf;
    ReadCapacity16Reply(env.target.value.capacity, ShiftOf(env.target.value));
  }

  /**
   * What READ CAPACITY told is kept: a plain read, write or verify of blocks up to the last one told,
   * few enough for the 16-bit count, asks LDM for exactly the sectors of these blocks, all inside the
   * device.
   */
  lemma ToldBlocksAreReached(ask: Cdb, reply: seq<Byte>, cdb: Cdb, target: Vdev)
    requires Tells(ask, reply, Blocks(target.capacity, ShiftOf(target)))
    requires WidthOf(cdb[0]).Some? && PlainCdb(GroupWidth(cdb[0]).value, cdb)
    requires var m := Asks(GroupWidth(cdb[0]).value, cdb);
             && m.lba + m.blocks <= BigEndian(reply[..|reply| - 4]) + 1
             && m.blocks * Pow2(ShiftOf(target)) < TWO16
    ensures var m, r, size := Asks(GroupWidth(cdb[0]).value, cdb), SectorsOf(cdb, target).ide, Pow2(ShiftOf(target));
            && r.lba == m.lba * size
            && r.lba + r.sectors == (m.lba + m.blocks) * size <= target.capacity
  {
    hide Decode, Asks, Pow2, Blocks, Scale, BigEndian, ShiftOf, PlainCdb;
    CdbReachesItsBlocks(WidthOf(cdb[0]).value, cdb, ShiftOf(target), target.capacity);
  }

  /** Success only for success, and busy exactly for the codes that ask for another try. */
  lemma ResultTells(code: nat)
    ensures ResultOf(code) == DidOk <==> code == 1
    ensures ResultOf(code) == BusBusy <==> code in {5, 11}
    ensures ResultOf(code) == BadTarget <==> code == 2
    ensures ResultOf(code) == NoConnect <==> code == 7
    ensures ResultOf(code) == DidReset <==> code == 13
    ensures ResultOf(code) in {DidOk, BusBusy, BadTarget, NoConnect, DidReset, DidAbort}
  {
  }

  /** The result of a START STOP UNIT for a COMMAND result code. */
  function StopResult(cdb: Cdb, code: nat): ScsiResult
  {
    if cdb[4] % 2 == 1 then ResultOf(code) else if code == 1 then Good else CheckCondition(0x0b, 0)
  }

  /** One host adapter, with the mid-layer's view of its commands. */
  class Host {
    var cmds: map<nat, Command>
    var mapped: set<nat>

    /** The result that each SCSI command was last finished with, and what its data buffer was given. */
    var results: map<nat, ScsiResult>
    var replies: map<nat, seq<Byte>>

    /** The sense buffers that a pass-through command has filled. */
    var sense: map<nat, Sense>

    /** The drives that were reset. */
    var resets: seq<Vdev>

    ghost var open: Option<nat>
    ghost var book: Book

    /** Every step so far. */
    ghost var log: seq<Step>

    ghost function View(): Desk
      reads this`cmds, this`open, this`mapped, this`book
    {
      Desk(cmds, open, mapped, book)
    }

    /** The state is that of a run. */
    ghost predicate Valid()
      reads this`cmds, this`open, this`mapped, this`book, this`log
    {
      Run(log) == Some(View())
    }

    constructor ()
      ensures Valid() && View() == EMPTY_DESK && log == []
    {
      cmds, mapped, results, replies, sense, resets := map[], {}, map[], map[], map[], [];
      open, book, log := None, EMPTY_BOOK, [];
    }

    /** What is proved of runs holds of every adapter. */
    lemma StaysBalanced()
      requires Valid()
      ensures Sound(View()) && Balanced(View())
    {
      hide Sound, Balanced, View, Next;
      BalancedOverRuns(log);
    }

    /** ldm_alloc_cmds for count commands, which hands out alloc. */
    method AllocCmds(alloc: nat, count: nat) returns (c: nat)
      requires Valid() && open.None? && alloc !in cmds
      modifies this`open, this`book, this`log
      ensures Valid() && c == alloc
      ensures c == 0 ==> open.None? && log == old(log)
      ensures c != 0 ==> open == Some(c) && log == old(log) + [Alloc(c, count)]
    {
      c := alloc;
      if c != 0 {
        RunSnoc(log, Alloc(c, count));
        open, book := Some(c), book.(taken := Plus(book.taken, c));
        log := log + [Alloc(c, count)];
      }
    }

    /** ldm_free_cmds at label error. */
    method FreeCmds(c: nat)
      requires Valid() && open == Some(c)
      modifies this`open, this`book, this`log
      ensures Valid() && open.None? && log == old(log) + [GiveBack(c)]
    {
      RunSnoc(log, GiveBack(c));
      open, book := None, book.(freed := Plus(book.freed, c));
      log := log + [GiveBack(c)];
    }

    /** Label cmd_done: the result is set and scsi_done called. No COMMAND may be left over. */
    method FinishNow(id: nat, result: ScsiResult)
      requires Valid() && open.None?
      modifies this`results, this`book, this`log
      ensures Valid() && log == old(log) + [Finish(id)]
      ensures results == old(results)[id := result]
    {
      RunSnoc(log, Finish(id));
      book := book.(accepted := Plus(book.accepted, id));
      results := results[id := result];
      book := book.(finished := Plus(book.finished, id));
      log := log + [Finish(id)];
    }

    /** The fields are set, `mapped` is cleared, and LDM owns the command. */
    method QueueToLdm(id: nat, c: nat, command: Command)
      requires Valid() && open == Some(c) && c !in cmds
      requires id !in Privs(cmds) && command.priv == id && Proper(command)
      modifies this`cmds, this`mapped, this`open, this`book, this`log
      ensures Valid() && open.None? && log == old(log) + [Queue(id, c, command)]
      ensures cmds == old(cmds)[c := command]
    {
      RunSnoc(log, Queue(id, c, command));
      book := book.(accepted := Plus(book.accepted, id));
      mapped := mapped - {id};
      open := None;
      cmds := cmds[c := command];
      log := log + [Queue(id, c, command)];
    }

    /** The choice of cmds_per_request for transfers and flushes. */
    method CommandsPerRequest(target: Vdev) returns (count: nat)
      ensures count == DeviceCommands(target)
    {
      if target.isArray && target.transform.Some? {
        var source, goal := target.transform.value.sourceCmds, target.transform.value.targetCmds;
        count := if source > goal then source else goal;
      } else {
        count := target.cmdsPerRequest;
      }
    }

    method StartStop(id: nat, cdb: Cdb, env: Env) returns (busy: bool, ghost outcome: Outcome)
      requires Valid() && open.None? && id !in Privs(cmds) && env.alloc !in cmds
      requires Addressed(env) && cdb[0] == 0x1b
      modifies this
      ensures Valid() && open.None? && log == old(log) + StepsOf(id, AsksFor(cdb, env), outcome)
      ensures busy <==> outcome.Rejected?
      ensures outcome.Rejected? <==> NeedsCommand(cdb, env) && env.alloc == 0
      ensures outcome.Queued? <==> IsQueued(cdb, env)
      ensures outcome.Queued? ==> outcome == Queued(env.alloc, CommandOf(id, cdb, env))
      ensures cmds == if outcome.Queued? then old(cmds)[outcome.cmd := outcome.command] else old(cmds)
      ensures outcome.Finished? ==> id in results && results == old(results)[id := results[id]]
      ensures !outcome.Finished? ==> results == old(results)
      ensures outcome.Finished? ==> outcome.tried.None?
      ensures outcome.Finished? ==>
                (results[id] == DidOk <==> env.target.value.isArray || StartOnly(cdb)) &&
                (results[id] != DidOk ==> results[id] == CheckCondition(5, 0x24))
      ensures replies == old(replies) && sense == old(sense)
      ensures resets == old(resets) + if !env.target.value.isArray && StartOnly(cdb) then [env.target.value] else []
    {
      hide Valid, Run, Privs;
      busy, outcome := false, Finished(None);
      if env.target.value.isArray {
        FinishNow(id, DidOk);
      } else if Bit(cdb[4], 2) || cdb[4] / 0x10 != 0 {
        FinishNow(id, CheckCondition(5, 0x24));
      } else if Bit(cdb[4], 1) {
        resets := resets + [env.target.value];
        FinishNow(id, DidOk);
      } else {
        var c := AllocCmds(env.alloc, env.target.value.cmdsPerRequest);
        if c == 0 {
          busy, outcome := true, Rejected;
        } else {
          QueueToLdm(id, c, Command(id, cdb, Standby, StartStopDone, false));
          outcome := Queued(c, Command(id, cdb, Standby, StartStopDone, false));
        }
      }
    }

    method AtaPassthrough(id: nat, cdb: Cdb, env: Env) returns (busy: bool, ghost outcome: Outcome)
      requires Valid() && open.None? && id !in Privs(cmds) && env.alloc !in cmds
      requires Addressed(env) && IsPassthrough(cdb)
      modifies this`cmds, this`mapped, this`results, this`open, this`book, this`log
      ensures Valid() && open.None? && log == old(log) + StepsOf(id, AsksFor(cdb, env), outcome)
      ensures busy <==> outcome.Rejected?
      ensures outcome.Rejected? <==> NeedsCommand(cdb, env) && env.alloc == 0
      ensures outcome.Queued? <==> IsQueued(cdb, env)
      ensures outcome.Queued? ==> outcome == Queued(env.alloc, CommandOf(id, cdb, env))
      ensures cmds == if outcome.Queued? then old(cmds)[outcome.cmd := outcome.command] else old(cmds)
      ensures outcome.Finished? ==> id in results && results == old(results)[id := results[id]]
      ensures !outcome.Finished? ==> results == old(results)
      ensures outcome.Finished? ==> outcome.tried == if NeedsCommand(cdb, env) then Some(env.alloc) else None
      ensures outcome.Finished? ==>
                results[id] == if env.target.value.isArray then DidAbort else CheckCondition(5, 0x24)
    {
      hide Valid, Run, Privs;
      busy := false;
      var prot := Protocol(cdb);
      if env.target.value.isArray {
        FinishNow(id, DidAbort);
        outcome := Finished(None);
        return;
      }
      if prot < 3 || prot > 5 {
        FinishNow(id, CheckCondition(5, 0x24));
        outcome := Finished(None);
        return;
      }
      var c := AllocCmds(env.alloc, env.target.value.cmdsPerRequest);
      if c == 0 {
        busy, outcome := true, Rejected;
        return;
      }
      var regs := FromCdb(cdb);
      var dir := NoData;
      var error := false;
      if MultipleCount(cdb) != 0 && regs.command !in {0xc4, 0x29, 0xc5, 0x39, 0xce} {
        error := true;
      } else if regs.features == 0x03 && regs.command == 0xef {
        error := true;
      } else if prot == 4 {
        error := TransferLength(cdb) != 0 && !ToHost(cdb);
        dir := DataIn;
      } else if prot == 5 {
        error := TransferLength(cdb) != 0 && ToHost(cdb);
        dir := DataOut;
      }
      if error {
        FreeCmds(c);
        FinishNow(id, CheckCondition(5, 0x24));
        outcome := Finished(Some(c));
      } else {
        var command := Command(id, cdb, Passthrough(dir, regs, env.dataLen / 512 % TWO16), CmdDone, true);
        QueueToLdm(id, c, command);
        outcome := Queued(c, command);
      }
    }

    method ReadWriteVerify(id: nat, cdb: Cdb, env: Env) returns (busy: bool, ghost outcome: Outcome)
      requires Valid() && open.None? && id !in Privs(cmds) && env.alloc !in cmds
      requires Addressed(env) && WidthOf(cdb[0]).Some?
      modifies this`cmds, this`mapped, this`open, this`book, this`log
      ensures Valid() && open.None? && log == old(log) + StepsOf(id, AsksFor(cdb, env), outcome)
      ensures busy <==> outcome.Rejected?
      ensures outcome == if env.alloc == 0 then Rejected else Queued(env.alloc, CommandOf(id, cdb, env))
      ensures outcome.Queued? ==> outcome.command.kind.ReadWrite?
      ensures outcome.Queued? ==> (outcome.command.kind.dir == DataIn <==> cdb[0] % 0x20 == 0x08)
      ensures outcome.Queued? ==> (outcome.command.kind.dir == DataOut <==> cdb[0] % 0x20 == 0x0a)
      ensures cmds == if outcome.Queued? then old(cmds)[outcome.cmd := outcome.command] else old(cmds)
    {
      hide Valid, Run, Privs;
      busy := false;
      var count := CommandsPerRequest(env.target.value);
      var c := AllocCmds(env.alloc, count);
      if c == 0 {
        busy, outcome := true, Rejected;
        return;
      }
      var ide := Decode(WidthOf(cdb[0]).value, cdb);
      var dir := NoData;
      if cdb[0] in {0x28, 0x08, 0x88} {
        dir := DataIn;
      } else if cdb[0] in {0x2a, 0x0a, 0x8a} {
        dir := DataOut;
      }
      UnshiftedScale(ide);
      if env.target.value.isArray {
        ide := Scale(ide, env.target.value.shift);
      }
      var command := Command(id, cdb, ReadWrite(ide, dir), CmdDone, true);
      QueueToLdm(id, c, command);
      outcome := Queued(c, command);
    }

    method SynchronizeCache(id: nat, cdb: Cdb, env: Env) returns (busy: bool, ghost outcome: Outcome)
      requires Valid() && open.None? && id !in Privs(cmds) && env.alloc !in cmds
      requires Addressed(env) && cdb[0] in {0x35, 0x91}
      modifies this`cmds, this`mapped, this`open, this`book, this`log
      ensures Valid() && open.None? && log == old(log) + StepsOf(id, AsksFor(cdb, env), outcome)
      ensures busy <==> outcome.Rejected?
      ensures outcome == if env.alloc == 0 then Rejected else Queued(env.alloc, CommandOf(id, cdb, env))
      ensures cmds == if outcome.Queued? then old(cmds)[outcome.cmd := outcome.command] else old(cmds)
    {
      hide Valid, Run, Privs;
      busy := false;
      var count := CommandsPerRequest(env.target.value);
      var c := AllocCmds(env.alloc, count);
      if c == 0 {
        busy, outcome := true, Rejected;
      } else {
        QueueToLdm(id, c, Command(id, cdb, Flush, CmdDone, false));
        outcome := Queued(c, Command(id, cdb, Flush, CmdDone, false));
      }
    }

    /**
     * The commands answered at once, by their result, and the data of READ CAPACITY; parsing of mode
     * pages is not modelled.
     */
    method ImmediateResult(cdb: Cdb, env: Env) returns (result: ScsiResult, reply: seq<Byte>)
      requires env.target.Some?
      ensures cdb[0] !in {0x1a, 0x5a} ==> (result == DidOk <==> Answerable(cdb, env.bufLen))
      ensures cdb[0] !in {0x1a, 0x5a} && result != DidOk ==>
                result == if cdb[0] == 0x12 && env.bufLen >= 36 then CheckCondition(5, 0x24) else DidAbort
      ensures cdb[0] in {0x1a, 0x5a} ==> result == env.modeSense
      ensures if cdb[0] in {0x25, 0x9e} && result == DidOk then ReplyOk(cdb, env, reply) else reply == []
    {
      hide ReadCapacity10, ReadCapacity16, ReplyOk;
      reply := [];
      var capacity, shift := env.target.value.capacity, ShiftOf(env.target.value);
      match cdb[0]
      case 0x12 =>
        if env.bufLen < 36 {
          result := DidAbort;
        } else if Bit(cdb[1], 1) {
          result := if cdb[2] in {0x00, 0x80, 0x83} then DidOk else CheckCondition(5, 0x24);
        } else {
          result := if cdb[2] != 0 then CheckCondition(5, 0x24) else DidOk;
        }
      case 0x25 =>
        if env.bufLen < 8 {
          result := DidAbort;
        } else {
          ShortReplyOk(cdb, env);
          result, reply := DidOk, ReadCapacity10(capacity, shift);
        }
      case 0x9e =>
        if cdb[1] % 0x20 == 0x10 && env.bufLen >= 12 {
          LongReplyOk(cdb, env);
          result, reply := DidOk, ReadCapacity16(capacity, shift);
        } else {
          result := DidAbort;
        }
      case 0x00 => result := DidOk;
      case 0x1a => result := env.modeSense;
      case 0x5a => result := env.modeSense;
      case _ => result := DidAbort;
    }

    /** hpt_queuecommand. The mid-layer does not submit a SCSI command that is in flight. */
    method QueueCommand(id: nat, cdb: Cdb, env: Env) returns (busy: bool, ghost outcome: Outcome)
      requires Valid() && open.None? && id !in Privs(cmds) && env.alloc !in cmds
      modifies this
      ensures Valid() && open.None? && log == old(log) + StepsOf(id, AsksFor(cdb, env), outcome)
      ensures busy <==> outcome.Rejected?
      ensures busy <==> NeedsCommand(cdb, env) && env.alloc == 0
      ensures outcome.Queued? <==> IsQueued(cdb, env)
      ensures outcome.Queued? ==> outcome == Queued(env.alloc, CommandOf(id, cdb, env)) && Sensible(outcome.command)
      ensures cmds == if outcome.Queued? then old(cmds)[outcome.cmd := outcome.command] else old(cmds)
      ensures outcome.Finished? ==> id in results && results == old(results)[id := results[id]]
      ensures !outcome.Finished? ==> results == old(results)
      ensures !Addressed(env) ==> outcome.Finished?
      ensures !Addressed(env) ==> results[id] == (if env.channel != 0 || env.lun != 0 then BadTarget else NoConnect)
      ensures outcome.Finished? ==> outcome.tried == if NeedsCommand(cdb, env) then Some(env.alloc) else None
      ensures outcome.Finished? && NeedsCommand(cdb, env) ==> results[id] == CheckCondition(5, 0x24)
      ensures outcome.Finished? && Addressed(env) && Immediate(cdb) ==>
                (results[id] == DidOk <==> Answerable(cdb, env.bufLen))
      ensures Addressed(env) && cdb[0] in {0x25, 0x9e} && results[id] == DidOk ==>
                id in replies && ReplyOk(cdb, env, replies[id])
      ensures resets == old(resets) +
                if Addressed(env) && cdb[0] == 0x1b && !env.target.value.isArray && StartOnly(cdb)
                then [env.target.value] else []
    {
      hide Valid, Run, Privs, ReplyOk, Sensible, CommandOf;
      busy, outcome := false, Finished(None);
      if env.channel != 0 || env.lun != 0 {
        FinishNow(id, BadTarget);
      } else if env.target.None? || !env.target.value.online {
        FinishNow(id, NoConnect);
      } else if cdb[0] == 0x1b {
        busy, outcome := StartStop(id, cdb, env);
      } else if cdb[0] in {0x35, 0x91} {
        busy, outcome := SynchronizeCache(id, cdb, env);
      } else if IsPassthrough(cdb) {
        busy, outcome := AtaPassthrough(id, cdb, env);
      } else if WidthOf(cdb[0]).Some? {
        busy, outcome := ReadWriteVerify(id, cdb, env);
      } else {
        var result, reply := ImmediateResult(cdb, env);
        replies := replies[id := reply];
        FinishNow(id, result);
      }
      if outcome.Queued? {
        QueuedIsSensible(id, cdb, env);
      }
    }

    /** os_buildsgl up to the merge: the data is mapped once, however often LDM asks. */
    method MapForSgl(c: nat, logical: bool, nseg: nat) returns (go: bool)
      requires Valid() && c in cmds && cmds[c].sgl
      modifies this`mapped, this`book, this`log
      ensures Valid() && log == old(log) + [BuildSgl(c, logical, nseg)]
      ensures go <==> logical || cmds[c].priv in mapped
    {
      RunSnoc(log, BuildSgl(c, logical, nseg));
      log := log + [BuildSgl(c, logical, nseg)];
      var id := cmds[c].priv;
      if !logical {
        if id !in mapped {
          if nseg == 0 {
            return false;
          }
          mapped := mapped + {id};
          book := book.(maps := Plus(book.maps, id));
        }
      }
      go := true;
    }

    /** The sense buffer that the mid-layer handed over with the SCSI command. */
    function SenseOf(id: nat): Sense
      reads this`sense
    {
      if id in sense then sense[id] else seq(SENSE_SIZE, _ => 0)
    }

    /** regs are the registers as the drive left them. */
    method OsCmdDone(c: nat, code: nat, regs: Registers)
      requires Valid() && c in cmds && Unmaps(cmds[c])
      modifies this`cmds, this`results, this`sense, this`book, this`log
      ensures Valid() && log == old(log) + [Complete(c)] && cmds == old(cmds) - {c}
      ensures results == old(results)[old(cmds)[c].priv := ResultOf(code)]
      ensures var done := old(cmds)[c];
              sense == if IsPassthrough(done.cdb)
                       then old(sense)[done.priv := Described(old(SenseOf(done.priv)), Extended(done.cdb), regs)]
                       else old(sense)
    {
      hide Described, Next, Run;
      var id, cdb := cmds[c].priv, cmds[c].cdb;
      if IsPassthrough(cdb) {
        var buffer := WriteDescriptor(SenseOf(id), Extended(cdb), regs);
        sense := sense[id := buffer];
      }
      TakeOff(c);
      results := results[id := ResultOf(code)];
    }

    /** The mapping is undone, the COMMAND freed, and scsi_done called. */
    method TakeOff(c: nat)
      requires Valid() && c in cmds && Unmaps(cmds[c])
      modifies this`cmds, this`book, this`log
      ensures Valid() && log == old(log) + [Complete(c)] && cmds == old(cmds) - {c}
    {
      RunSnoc(log, Complete(c));
      log := log + [Complete(c)];
      var id := cmds[c].priv;
      if id in mapped {
        book := book.(unmaps := Plus(book.unmaps, id));
      }
      cmds := cmds - {c};
      book := book.(freed := Plus(book.freed, c));
      book := book.(finished := Plus(book.finished, id));
    }

    method StartStopDoneCallback(c: nat, code: nat, regs: Registers)
      requires Valid() && c in cmds && cmds[c].callback == StartStopDone && cmds[c].cdb[0] == 0x1b
      modifies this`cmds, this`results, this`sense, this`book, this`log
      ensures Valid() && log == old(log) + [Complete(c)] && cmds == old(cmds) - {c} && sense == old(sense)
      ensures results == old(results)[old(cmds)[c].priv := StopResult(old(cmds)[c].cdb, code)]
    {
      var id := cmds[c].priv;
      if cmds[c].cdb[4] % 2 == 1 {
        OsCmdDone(c, code, regs);
      } else {
        RunSnoc(log, Complete(c));
        log := log + [Complete(c)];
        results := results[id := if code == 1 then Good else CheckCondition(0x0b, 0)];
        cmds := cmds - {c};
        book := book.(freed := Plus(book.freed, c));
        book := book.(finished := Plus(book.finished, id));
      }
    }

    /** The completion of any command in flight: its callback runs once, and nobody else is touched. */
    method LdmFinish(c: nat, code: nat, regs: Registers)
      requires Valid() && c in cmds
      modifies this`cmds, this`results, this`sense, this`book, this`log
      ensures Valid() && log == old(log) + [Complete(c)] && cmds == old(cmds) - {c}
      ensures var done := old(cmds)[c];
              results == old(results)[done.priv :=
                if done.callback == CmdDone then ResultOf(code) else StopResult(done.cdb, code)]
      ensures var done := old(cmds)[c];
              && (done.callback == CmdDone ==> (results[done.priv] == DidOk <==> code == 1))
              && (done.callback == CmdDone ==> (results[done.priv] == BusBusy <==> code in {5, 11}))
              && (done.callback == CmdDone ==> (results[done.priv] == BadTarget <==> code == 2))
              && (done.callback == CmdDone ==> (results[done.priv] == NoConnect <==> code == 7))
              && (done.callback == CmdDone ==> (results[done.priv] == DidReset <==> code == 13))
              && (done.callback == StartStopDone ==> (results[done.priv] in {Good, DidOk} <==> code == 1))
      ensures forall id :: id in old(sense) && id != old(cmds)[c].priv ==> id in sense && sense[id] == old(sense)[id]
    {
      assert Proper(cmds[c]) by {
        StaysBalanced();
      }
      ResultTells(code);
      match cmds[c].callback
      case CmdDone => OsCmdDone(c, code, regs);
      case StartStopDone => StartStopDoneCallback(c, code, regs);
    }
  }

  lemma UnshiftedScale(r: Request)
    ensures Scale(r, 0) == r
  {
    assert Pow2(0) == 1;
  }
}
