/**
 * The /proc window writer (osm/linux/hptinfo.c): text is produced piece by piece, and only the part
 * that falls into the reader's window [offset, offset+length) reaches the buffer.
 */
module ProcWindow {
  import opened Collections

  /** The part of a text that a read of at most `length` characters from `offset` delivers. */
  function Window<T>(text: seq<T>, offset: nat, length: nat): seq<T>
  {
    var from := if offset < |text| then offset else |text|;
    var upto := if offset + length < |text| then offset + length else |text|;
    text[from..upto]
  }

  /** Text before the window, or after a full one, changes nothing. */
  lemma WindowSame<T>(text: seq<T>, data: seq<T>, offset: nat, length: nat)
    requires |text| + |data| <= offset || |Window(text, offset, length)| == length
    ensures Window(text + data, offset, length) == Window(text, offset, length)
  {
  }

  /** Otherwise the window grows by as much of the new text as falls into it. */
  lemma WindowGrows<T>(text: seq<T>, data: seq<T>, offset: nat, length: nat, skip: nat, take: nat)
    requires |text| + |data| > offset && skip == (if |text| < offset then offset - |text| else 0)
    requires skip + take <= |data| && |Window(text, offset, length)| + take <= length
    requires skip + take == |data| || |Window(text, offset, length)| + take == length
    ensures Window(text + data, offset, length) == Window(text, offset, length) + data[skip..skip + take]
  {
    var w, w' := Window(text, offset, length), Window(text + data, offset, length);
    assert |w'| == |w| + take;
    forall i | 0 <= i < |w'|
      ensures w'[i] == (w + data[skip..skip + take])[i]
    {
      assert w'[i] == (text + data)[offset + i];
    }
  }

  lemma WindowLength<T>(text: seq<T>, offset: nat, length: nat)
    ensures |Window(text, offset, length)| <= length
    ensures |text| <= offset ==> Window(text, offset, length) == []
  {
  }

  method Memcpy(buffer: array<char>, at: nat, data: seq<char>)
    requires at + |data| <= buffer.Length
    modifies buffer
    ensures buffer[..at + |data|] == old(buffer[..at]) + data
    ensures buffer[at + |data|..] == old(buffer[at + |data|..])
  {
    forall i | 0 <= i < |data| {
      buffer[at + i] := data[i];
    }
  }

  /** HPT_GET_INFO. */
  class GetInfo {
    const buffer: array<char>
    const buflength: nat
    const bufoffset: nat
    var buffillen: nat
    var filpos: nat

    /** Everything passed to the writer so far. */
    ghost var text: seq<char>

    /** The buffer holds the window of the text so far, and filpos the length of that text. */
    ghost predicate Valid()
      reads this, buffer
    {
      && buflength <= buffer.Length
      && filpos == |text|
      && buffillen <= buflength
      && buffer[..buffillen] == Window(text, bufoffset, buflength)
    }

    constructor (buffer: array<char>, length: nat, offset: nat)
      requires length <= buffer.Length
      ensures Valid() && text == [] && this.buffer == buffer && buflength == length && bufoffset == offset
    {
      this.buffer, buflength, bufoffset := buffer, length, offset;
      buffillen, filpos := 0, 0;
      text := [];
    }

    /** hpt_copy_mem_info; what lies behind the window in the buffer is not touched. */
    method CopyMemInfo(data: seq<char>)
      requires Valid()
      modifies this`filpos, this`buffillen, this`text, buffer
      ensures Valid() && text == old(text) + data
      ensures buffer[buffillen..] == old(buffer[..])[buffillen..]
    {
      hide Window;
      WindowLength(text, bufoffset, buflength);
      var data', datalen := data, |data|;
      text := text + data;
      if filpos < bufoffset {
        if filpos + datalen <= bufoffset {
          filpos := filpos + datalen;
          WindowSame(old(text), data, bufoffset, buflength);
          return;
        } else {
          data' := data'[bufoffset - filpos..];
          datalen := datalen - (bufoffset - filpos);
          filpos := bufoffset;
        }
      }
      filpos := filpos + datalen;
      if buffillen == buflength {
        WindowSame(old(text), data, bufoffset, buflength);
        return;
      }
      if buflength - buffillen < datalen {
        datalen := buflength - buffillen;
      }
      ghost var skip := |data| - |data'|;
      assert data'[..datalen] == data[skip..skip + datalen];
      if |text| > bufoffset {
        WindowGrows(old(text), data, bufoffset, buflength, skip, datalen);
      } else {
        assert datalen == 0;
        WindowSame(old(text), data, bufoffset, buflength);
      }
      Memcpy(buffer, buffillen, data'[..datalen]);
      buffillen := buffillen + datalen;
      assert buffer[..buffillen] == Window(text, bufoffset, buflength);
    }
  }

  /** hpt_proc_get_info, for the text pieces it emits: how they are split does not matter. */
  method ProcGetInfo(pieces: seq<seq<char>>, buffer: array<char>, offset: nat, length: nat) returns (n: nat)
    requires length <= buffer.Length
    modifies buffer
    ensures n <= length && buffer[..n] == Window(Flatten(pieces), offset, length)
    ensures buffer[n..] == old(buffer[n..])
  {
    var info := new GetInfo(buffer, length, offset);
    for k := 0 to |pieces|
      invariant info.Valid() && info.buffer == buffer && info.buflength == length && info.bufoffset == offset
      invariant info.text == Flatten(pieces[..k])
      invariant buffer[info.buffillen..] == old(buffer[..])[info.buffillen..]
    {
      assert pieces[..k + 1][..k] == pieces[..k];
      ghost var before := buffer[..];
      ghost var fill := info.buffillen;
      info.CopyMemInfo(pieces[k]);
    }
    assert pieces[..|pieces|] == pieces;
    n := info.buffillen;
  }

  /** Reads one after the other, each from where the last one ended. */
  function ReadAll<T>(text: seq<T>, offset: nat, lengths: seq<nat>): seq<T>
    decreases |lengths|
  {
    if lengths == [] then []
    else
      var w := Window(text, offset, lengths[0]);
      w + ReadAll(text, offset + |w|, lengths[1..])
  }

  function Sum(lengths: seq<nat>): nat
  {
    if lengths == [] then 0 else lengths[0] + Sum(lengths[1..])
  }

  lemma WindowSplit<T>(text: seq<T>, offset: nat, a: nat, b: nat)
    requires offset <= |text|
    ensures var w := Window(text, offset, a);
            && offset + |w| <= |text|
            && Window(text, offset, a + b) == w + Window(text, offset + |w|, b)
  {
  }

  lemma WindowToEnd<T>(text: seq<T>, offset: nat, n: nat)
    requires offset <= |text| <= offset + n
    ensures Window(text, offset, n) == text[offset..]
  {
  }

  /** Successive reads deliver the text exactly, however they are cut. */
  lemma {:induction false} ReadsReassemble<T>(text: seq<T>, offset: nat, lengths: seq<nat>)
    requires offset <= |text|
    ensures ReadAll(text, offset, lengths) == Window(text, offset, Sum(lengths))
    ensures offset + Sum(lengths) >= |text| ==> ReadAll(text, offset, lengths) == text[offset..]
    decreases |lengths|
  {
    hide Window;
    if offset + Sum(lengths) >= |text| {
      WindowToEnd(text, offset, Sum(lengths));
    }
    if lengths == [] {
      WindowLength(text, offset, 0);
    } else {
      WindowSplit(text, offset, lengths[0], Sum(lengths[1..]));
      ReadsReassemble(text, offset + |Window(text, offset, lengths[0])|, lengths[1..]);
    }
  }

  /**
   * Reads of these lengths, each a call of hpt_proc_get_info from the offset reached so far, while
   * the text stays the same.
   */
  method ReadOn(pieces: seq<seq<char>>, buffer: array<char>, lengths: seq<nat>) returns (got: seq<char>)
    requires forall i :: 0 <= i < |lengths| ==> lengths[i] <= buffer.Length
    modifies buffer
    ensures got == Window(Flatten(pieces), 0, Sum(lengths))
    ensures Sum(lengths) >= |Flatten(pieces)| ==> got == Flatten(pieces)
  {
    ghost var text := Flatten(pieces);
    got := [];
    hide Window, Flatten, Sum;
    for i := 0 to |lengths|
      invariant got + ReadAll(text, |got|, lengths[i..]) == ReadAll(text, 0, lengths)
    {
      var n := ProcGetInfo(pieces, buffer, |got|, lengths[i]);
      assert lengths[i..][0] == lengths[i] && lengths[i..][1..] == lengths[i + 1..];
      got := got + buffer[..n];
    }
    ReadsReassemble(text, 0, lengths);
  }

  /** A read of positive length returns nothing exactly at the end of the text. */
  lemma EmptyReadIffAtEnd<T>(text: seq<T>, offset: nat, length: nat)
    requires length > 0
    ensures Window(text, offset, length) == [] <==> offset >= |text|
  {
  }
}
