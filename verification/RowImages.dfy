/** Row changes of row-based log events, and the inversion of one row event for flashback: what
    `Log_event::print_base64` and `Rows_log_event::change_to_flashback_event` make of an event
    (sql/log_event.cc). */
module RowImages {
  import opened Common

  type Image = seq<byte>

  datatype Kind = Write | Delete | Update

  /** One row of an event: the row written or deleted, or the old row followed by the new one. */
  datatype Change = Change(first: Image, second: Image)

  function Opposite(k: Kind): Kind {
    match k
    case Write => Delete
    case Delete => Write
    case Update => Update
  }

  function Undo(k: Kind, c: Change): Change {
    if k.Update? then Change(c.second, c.first) else c
  }

  /** The inverse rows, last one first. */
  function UndoAll(k: Kind, rows: seq<Change>): seq<Change> {
    if rows == [] then [] else UndoAll(k, rows[1..]) + [Undo(k, rows[0])]
  }

  // ----- what rows do to a table -----

  type Table = multiset<Image>

  /** One row applied to a table whose contents must stay `allowed` (its unique keys, say); the row to
      delete or update has to be there. */
  ghost function Apply(allowed: Table -> bool, k: Kind, c: Change, t: Table): Option<Table> {
    if !k.Write? && c.first !in t then None
    else
      var after := match k
                   case Write => t + multiset{c.first}
                   case Delete => t - multiset{c.first}
                   case Update => t - multiset{c.first} + multiset{c.second};
      if allowed(after) then Some(after) else None
  }

  ghost function ApplyAll(allowed: Table -> bool, k: Kind, rows: seq<Change>, t: Table): Option<Table> {
    if rows == [] then Some(t)
    else
      var next := Apply(allowed, k, rows[0], t);
      if next.None? then None else ApplyAll(allowed, k, rows[1..], next.value)
  }

  lemma UndoOne(allowed: Table -> bool, k: Kind, c: Change, t: Table)
    requires allowed(t) && Apply(allowed, k, c, t).Some?
    ensures Apply(allowed, Opposite(k), Undo(k, c), Apply(allowed, k, c, t).value) == Some(t)
  {
    match k
    case Write => assert t + multiset{c.first} - multiset{c.first} == t;
    case Delete => assert t - multiset{c.first} + multiset{c.first} == t;
    case Update =>
      var u := t - multiset{c.first} + multiset{c.second};
      assert u - multiset{c.second} + multiset{c.first} == t;
  }

  lemma {:induction false} ApplySnoc(allowed: Table -> bool, k: Kind, rows: seq<Change>, c: Change, t: Table)
    requires ApplyAll(allowed, k, rows, t).Some?
    ensures ApplyAll(allowed, k, rows + [c], t) == Apply(allowed, k, c, ApplyAll(allowed, k, rows, t).value)
  {
    if rows == [] {
      var next := Apply(allowed, k, c, t);
      assert next.Some? ==> ApplyAll(allowed, k, [], next.value) == next;
      assert [c][1..] == [];
    } else {
      assert (rows + [c])[1..] == rows[1..] + [c];
      ApplySnoc(allowed, k, rows[1..], c, Apply(allowed, k, rows[0], t).value);
    }
  }

  lemma {:induction false} StaysAllowed(allowed: Table -> bool, k: Kind, rows: seq<Change>, t: Table)
    requires allowed(t) && ApplyAll(allowed, k, rows, t).Some?
    ensures allowed(ApplyAll(allowed, k, rows, t).value)
  {
    if rows != [] {
      StaysAllowed(allowed, k, rows[1..], Apply(allowed, k, rows[0], t).value);
    }
  }

  /** An event followed by its inverse leaves the table as it was. */
  lemma {:induction false} UndoRestores(allowed: Table -> bool, k: Kind, rows: seq<Change>, t: Table)
    requires allowed(t) && ApplyAll(allowed, k, rows, t).Some?
    ensures ApplyAll(allowed, Opposite(k), UndoAll(k, rows), ApplyAll(allowed, k, rows, t).value) == Some(t)
  {
    if rows != [] {
      var next := Apply(allowed, k, rows[0], t).value;
      UndoRestores(allowed, k, rows[1..], next);
      UndoOne(allowed, k, rows[0], t);
      ApplySnoc(allowed, Opposite(k), UndoAll(k, rows[1..]), Undo(k, rows[0]),
                ApplyAll(allowed, k, rows, t).value);
    }
  }

  // ----- the bytes of an event -----

  /** The rows part of an event, as stored. */
  function Encoded(rows: seq<Change>): (r: seq<byte>)
    ensures rows == [] ==> r == []
  {
    if rows == [] then [] else rows[0].first + rows[0].second + Encoded(rows[1..])
  }

  /** `len` reads the length of a row image off its own bytes, whatever follows them. */
  ghost predicate Reads(len: seq<byte> -> nat, image: Image) {
    image != [] && forall rest: seq<byte> {:trigger len(image + rest)} :: len(image + rest) == |image|
  }

  ghost predicate Readable(len: seq<byte> -> nat, k: Kind, rows: seq<Change>) {
    forall i | 0 <= i < |rows| ::
      Reads(len, rows[i].first) && if k.Update? then Reads(len, rows[i].second) else rows[i].second == []
  }

  /** A row image is read off its own bytes alone. */
  ghost predicate Local(len: seq<byte> -> nat) {
    forall a: seq<byte>, b: seq<byte>, c: seq<byte> {:trigger len(a + b), len(a + c)} ::
      a != [] && len(a + b) == |a| ==> len(a + c) == |a|
  }

  /** The rows part of an event, cut into rows at the lengths read; none if a length does not fit. */
  function Decoded(len: seq<byte> -> nat, k: Kind, data: seq<byte>): Option<seq<Change>>
    decreases |data|
  {
    if data == [] then Some([])
    else
      var l1 := len(data);
      if l1 == 0 || |data| < l1 then None
      else
        var l2 := if k.Update? then len(data[l1..]) else 0;
        if (k.Update? && l2 == 0) || |data| < l1 + l2 then None
        else
          var rest := Decoded(len, k, data[l1 + l2..]);
          if rest.None? then None else Some([Change(data[..l1], data[l1..l1 + l2])] + rest.value)
  }

  lemma ReadsHere(len: seq<byte> -> nat, data: seq<byte>)
    requires Local(len) && 0 < len(data) <= |data|
    ensures Reads(len, data[..len(data)])
  {
    var a := data[..len(data)];
    assert data == a + data[len(data)..];
    forall rest: seq<byte>
      ensures len(a + rest) == |a|
    {
    }
  }

  /** The row cut first. */
  lemma FirstCut(len: seq<byte> -> nat, k: Kind, data: seq<byte>) returns (c: Change, rest: seq<byte>)
    requires Local(len) && data != [] && Decoded(len, k, data).Some?
    ensures data == c.first + c.second + rest && |rest| < |data|
    ensures Decoded(len, k, rest).Some? && Decoded(len, k, data).value == [c] + Decoded(len, k, rest).value
    ensures Readable(len, k, [c])
  {
    hide Local, Reads;
    var l1 := len(data);
    var l2 := if k.Update? then len(data[l1..]) else 0;
    c, rest := Change(data[..l1], data[l1..l1 + l2]), data[l1 + l2..];
    ReadsHere(len, data);
    if k.Update? {
      ReadsHere(len, data[l1..]);
      assert data[l1..][..l2] == data[l1..l1 + l2];
    }
  }

  /** What has been cut is the whole of the bytes, and every image in it is readable wherever it stands. */
  lemma {:induction false} DecodedRows(len: seq<byte> -> nat, k: Kind, data: seq<byte>)
    requires Local(len) && Decoded(len, k, data).Some?
    ensures var rows := Decoded(len, k, data).value; Readable(len, k, rows) && Encoded(rows) == data
    decreases |data|
  {
    hide Local, Reads;
    if data != [] {
      var c, rest := FirstCut(len, k, data);
      hide Decoded;
      DecodedRows(len, k, rest);
      var rows := Decoded(len, k, rest).value;
      assert ([c] + rows)[1..] == rows;
      assert [c][0] == c;
    }
  }

  lemma LengthsRead(len: seq<byte> -> nat, k: Kind, c: Change, rest: seq<byte>)
    requires Readable(len, k, [c])
    ensures len(c.first + c.second + rest) == |c.first| > 0
    ensures if k.Update? then len(c.second + rest) == |c.second| > 0 else c.second == []
  {
    assert [c][0] == c;
    assert c.first + c.second + rest == c.first + (c.second + rest);
  }

  lemma DecodedCons(len: seq<byte> -> nat, k: Kind, c: Change, rest: seq<byte>)
    requires Readable(len, k, [c]) && Decoded(len, k, rest).Some?
    ensures Decoded(len, k, c.first + c.second + rest) == Some([c] + Decoded(len, k, rest).value)
  {
    hide Readable;
    LengthsRead(len, k, c, rest);
    RowParts(c.first + c.second + rest, c, rest);
  }

  /** Readable rows are cut at their own boundaries. */
  lemma {:induction false} EncodedDecodes(len: seq<byte> -> nat, k: Kind, rows: seq<Change>)
    requires Readable(len, k, rows)
    ensures Decoded(len, k, Encoded(rows)) == Some(rows)
  {
    hide Reads;
    if rows != [] {
      EncodedDecodes(len, k, rows[1..]);
      assert Readable(len, k, [rows[0]]);
      hide Decoded;
      DecodedCons(len, k, rows[0], Encoded(rows[1..]));
      assert rows == [rows[0]] + rows[1..];
    }
  }

  lemma {:induction false} UndoReadable(len: seq<byte> -> nat, k: Kind, rows: seq<Change>)
    requires Readable(len, k, rows)
    ensures Readable(len, Opposite(k), UndoAll(k, rows))
  {
    hide Reads;
    if rows != [] {
      UndoReadable(len, k, rows[1..]);
    }
  }

  lemma {:induction false} EncodedConcat(a: seq<Change>, b: seq<Change>)
    ensures Encoded(a + b) == Encoded(a) + Encoded(b)
  {
    if a == [] {
      assert a + b == b;
    } else {
      EncodedConcat(a[1..], b);
      assert (a + b)[1..] == a[1..] + b;
      var head := a[0].first + a[0].second;
      assert head + (Encoded(a[1..]) + Encoded(b)) == head + Encoded(a[1..]) + Encoded(b);
    }
  }

  /** The inverse rows from row `i` on are those from row `i + 1` on and then the inverse of row `i`. */
  lemma PutRow(k: Kind, rows: seq<Change>, i: nat)
    requires i < |rows|
    ensures Encoded(UndoAll(k, rows[i..])) == Encoded(UndoAll(k, rows[i + 1..])) + RowBytes(k, rows[i])
    ensures |Encoded(UndoAll(k, rows[i..]))| <= |Encoded(rows)|
  {
    assert rows[i..][1..] == rows[i + 1..];
    EncodedConcat(UndoAll(k, rows[i + 1..]), [Undo(k, rows[i])]);
    assert [Undo(k, rows[i])][1..] == [];
    assert Encoded([Undo(k, rows[i])]) == RowBytes(k, rows[i]) + [];
    EncodedLength(k, rows[i..]);
    EncodedConcat(rows[..i], rows[i..]);
    assert rows == rows[..i] + rows[i..];
  }

  lemma {:induction false} EncodedLength(k: Kind, rows: seq<Change>)
    ensures |Encoded(UndoAll(k, rows))| == |Encoded(rows)|
  {
    if rows != [] {
      EncodedLength(k, rows[1..]);
      EncodedConcat(UndoAll(k, rows[1..]), [Undo(k, rows[0])]);
      assert [Undo(k, rows[0])][1..] == [];
    }
  }

  method CopyBytes(a: array<byte>, at: nat, src: seq<byte>)
    requires at + |src| <= a.Length
    modifies a
    ensures a[..] == old(a[..at]) + src + old(a[at + |src|..])
  {
    for i := 0 to |src|
      invariant a[..at] == old(a[..at]) && a[at..at + i] == src[..i] && a[at + i..] == old(a[at + i..])
    {
      a[at + i] := src[i];
    }
  }

  /** Exchange two neighbouring parts of a buffer: the old and the new image of an updated row. */
  method SwapParts(a: array<byte>, at: nat, l1: nat, l2: nat)
    requires at + l1 + l2 <= a.Length
    modifies a
    ensures a[..] == old(a[..at]) + old(a[at + l1..at + l1 + l2]) + old(a[at..at + l1]) + old(a[at + l1 + l2..])
  {
    ghost var before := a[..];
    var part1, part2 := a[at..at + l1], a[at + l1..at + l1 + l2];
    CopyBytes(a, at, part2);
    assert a[..] == before[..at] + part2 + before[at + l2..];
    assert a[..at + l2] == before[..at] + part2;
    assert a[at + l1 + l2..] == before[at + l1 + l2..];
    CopyBytes(a, at + l2, part1);
  }

  /** The bytes of a row once its two images are swapped, if the event is an update. */
  function RowBytes(k: Kind, c: Change): seq<byte> {
    Undo(k, c).first + Undo(k, c).second
  }

  /** Row `n` heads the bytes not yet cut, and `len` reads the lengths of its images. */
  lemma NextRow(len: seq<byte> -> nat, k: Kind, rows: seq<Change>, n: nat) returns (c: Change, rest: seq<byte>)
    requires Readable(len, k, rows) && n <= |rows| && Encoded(rows[n..]) != []
    ensures n < |rows| && c == rows[n] && rest == Encoded(rows[n + 1..])
    ensures Encoded(rows[n..]) == c.first + c.second + rest && c.first != []
    ensures len(c.first + c.second + rest) == |c.first|
    ensures if k.Update? then len(c.second + rest) == |c.second| else c.second == []
  {
    c, rest := rows[n], Encoded(rows[n + 1..]);
    assert rows[n..][0] == c && rows[n..][1..] == rows[n + 1..];
    assert c.first + c.second + rest == c.first + (c.second + rest);
  }

  lemma RowsHaveBytes(len: seq<byte> -> nat, k: Kind, rows: seq<Change>, n: nat)
    requires Readable(len, k, rows) && n <= |rows|
    ensures Encoded(rows[n..]) == [] ==> n == |rows|
  {
    if n < |rows| {
      assert rows[n..][0] == rows[n];
    }
  }

  /** Cut one row off, swapping its images in place if the event is an update. */
  method CutRow(len: seq<byte> -> nat, k: Kind, buf: array<byte>, value: nat, ghost c: Change, ghost rest: seq<byte>)
    returns (row: seq<byte>)
    requires value <= buf.Length && buf[value..] == c.first + c.second + rest
    requires len(c.first + c.second + rest) == |c.first|
    requires if k.Update? then len(c.second + rest) == |c.second| else c.second == []
    modifies buf
    ensures row == RowBytes(k, c) && value + |row| <= buf.Length && buf[value + |row|..] == rest
  {
    ghost var tail := buf[value..];
    var l1 := len(buf[value..]);
    RowParts(tail, c, rest);
    assert buf[value + l1..] == tail[l1..];
    var l2 := 0;
    if k.Update? {
      l2 := len(buf[value + l1..]);
      assert buf[value..value + l1] == tail[..l1];
      assert buf[value + l1..value + l1 + l2] == tail[l1..l1 + l2];
      SwapParts(buf, value, l1, l2);
    }
    row := buf[value..value + l1 + l2];
    assert buf[value + l1 + l2..] == tail[l1 + l2..];
    assert row == RowBytes(k, c) by {
      assert k.Update? ==> row == c.second + c.first;
      assert !k.Update? ==> row == tail[..l1] + [];
    }
  }

  lemma RowParts(tail: seq<byte>, c: Change, rest: seq<byte>)
    requires tail == c.first + c.second + rest
    ensures tail[..|c.first|] == c.first && tail[|c.first|..] == c.second + rest
    ensures tail[|c.first|..|c.first| + |c.second|] == c.second && tail[|c.first| + |c.second|..] == rest
  {
  }

  /** The first half of `change_to_flashback_event`: cut all rows. */
  method CutRows(len: seq<byte> -> nat, k: Kind, buf: array<byte>, ghost rows: seq<Change>)
    returns (cut: seq<seq<byte>>)
    requires buf[..] == Encoded(rows) && Readable(len, k, rows)
    modifies buf
    ensures |cut| == |rows| && forall i | 0 <= i < |rows| :: cut[i] == RowBytes(k, rows[i])
  {
    hide Encoded, Readable, RowBytes, UndoAll;
    cut := [];
    var value := 0;
    assert rows[0..] == rows && buf[0..] == buf[..];
    while value < buf.Length
      invariant |cut| <= |rows| && value <= buf.Length && buf[value..] == Encoded(rows[|cut|..])
      invariant forall i | 0 <= i < |cut| :: cut[i] == RowBytes(k, rows[i])
    {
      ghost var c, rest := NextRow(len, k, rows, |cut|);
      var row := CutRow(len, k, buf, value, c, rest);
      cut := cut + [row];
      value := value + |row|;
    }
    RowsHaveBytes(len, k, rows, |cut|);
  }

  /** `change_to_flashback_event`: of the stored event `buf`, the rows part, which starts at `before` and
      of which `rowsBuf` is a copy, ends up holding the inverse rows, last one first; nothing else changes. */
  method ChangeToFlashbackEvent(len: seq<byte> -> nat, k: Kind, rowsBuf: array<byte>, buf: array<byte>, before: nat,
                                ghost rows: seq<Change>)
    requires rowsBuf != buf && rowsBuf[..] == Encoded(rows) && Readable(len, k, rows)
    requires before + rowsBuf.Length <= buf.Length
    modifies rowsBuf, buf
    ensures buf[..before] == old(buf[..before])
    ensures buf[before..before + rowsBuf.Length] == Encoded(UndoAll(k, rows))
    ensures buf[before + rowsBuf.Length..] == old(buf[before + rowsBuf.Length..])
  {
    hide Encoded, Readable, RowBytes;
    var cut := CutRows(len, k, rowsBuf, rows);
    assert buf[..] == old(buf[..]);
    var pos := before;
    EncodedLength(k, rows);
    assert rows[|rows|..] == [];
    var i := |cut|;
    while i > 0
      invariant 0 <= i <= |cut| && pos == before + |Encoded(UndoAll(k, rows[i..]))|
      invariant buf[..before] == old(buf[..before])
      invariant pos <= before + rowsBuf.Length && buf[before..pos] == Encoded(UndoAll(k, rows[i..]))
      invariant buf[pos..] == old(buf[pos..])
    {
      i := i - 1;
      PutRow(k, rows, i);
      CopyBytes(buf, pos, cut[i]);
      pos := pos + |cut[i]|;
    }
    assert rows[0..] == rows;
  }

  /** The bytes that flashback makes of an event's rows part. */
  function Flipped(len: seq<byte> -> nat, k: Kind, data: seq<byte>): seq<byte> {
    var rows := Decoded(len, k, data);
    if rows.None? then data else Encoded(UndoAll(k, rows.value))
  }

  /** They are the rows part of an event of the opposite kind, with the inverse rows, last one first. */
  lemma FlippedDecodes(len: seq<byte> -> nat, k: Kind, data: seq<byte>)
    requires Local(len) && Decoded(len, k, data).Some?
    ensures Decoded(len, Opposite(k), Flipped(len, k, data)) == Some(UndoAll(k, Decoded(len, k, data).value))
    ensures |Flipped(len, k, data)| == |data|
  {
    hide Decoded, Readable, Encoded;
    var rows := Decoded(len, k, data).value;
    DecodedRows(len, k, data);
    UndoReadable(len, k, rows);
    EncodedDecodes(len, Opposite(k), UndoAll(k, rows));
    EncodedLength(k, rows);
  }

  /** Stored rows changed in place, as `print_base64` has it done before it prints them. */
  method FlipStored(len: seq<byte> -> nat, k: Kind, data: seq<byte>) returns (flipped: seq<byte>)
    requires Local(len) && Decoded(len, k, data).Some?
    ensures flipped == Flipped(len, k, data)
  {
    hide Decoded, Readable, Encoded, UndoAll;
    var n := |data|;
    var buf := new byte[n](i requires 0 <= i < n => data[i]);
    var rowsBuf := new byte[n](i requires 0 <= i < n => data[i]);
    assert rowsBuf[..] == data;
    DecodedRows(len, k, data);
    ChangeToFlashbackEvent(len, k, rowsBuf, buf, 0, Decoded(len, k, data).value);
    flipped := buf[..];
    assert flipped == buf[0..n];
  }
}
