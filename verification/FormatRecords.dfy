/**
 * The byte format of message definitions: for every definition the number of ORB
 * ids and the ids, the number of dependencies and their ids, and the field text
 * ended by a zero byte.  Ids are 16-bit little endian.
 */
module FormatRecords {
  import opened Bits
  import opened Results

  type OrbId = x: int | 0 <= x < 0x1_0000

  datatype Record = Record(orbIds: seq<OrbId>, dependencies: seq<OrbId>, fields: seq<Byte>)

  /** One length byte for each list. */
  predicate Storable(r: Record) {
    |r.orbIds| < 256 && |r.dependencies| < 256
  }

  function IdBytes(ids: seq<OrbId>): (b: seq<Byte>)
    ensures |b| == 2 * |ids|
  {
    if ids == [] then [] else [ids[0] % 256, ids[0] / 256] + IdBytes(ids[1..])
  }

  /** The number of ids, then the ids. */
  function ListBytes(ids: seq<OrbId>): (b: seq<Byte>)
    requires |ids| < 256
    ensures |b| > 0
  {
    var n: Byte := |ids|;
    [n] + IdBytes(ids)
  }

  function RecordBytes(r: Record): (b: seq<Byte>)
    requires Storable(r)
    ensures |b| > 0
  {
    ListBytes(r.orbIds) + (ListBytes(r.dependencies) + (r.fields + [0]))
  }

  predicate AllStorable(rs: seq<Record>) {
    forall i :: 0 <= i < |rs| ==> Storable(rs[i])
  }

  function Serialize(rs: seq<Record>): seq<Byte>
    requires AllStorable(rs)
  {
    if rs == [] then [] else RecordBytes(rs[0]) + Serialize(rs[1..])
  }

  // ----- the reader -----

  function ReadIds(n: nat, b: seq<Byte>): (ids: seq<OrbId>)
    requires 2 * n <= |b|
    ensures |ids| == n
  {
    if n == 0 then [] else [b[0] as int + 256 * (b[1] as int)] + ReadIds(n - 1, b[2..])
  }

  /** The number of bytes before the first zero, or all of them. */
  function TextLength(b: seq<Byte>): (n: nat)
    ensures n <= |b|
  {
    if b == [] || b[0] == 0 then 0 else 1 + TextLength(b[1..])
  }

  /** A list of ids and the bytes after it. */
  function ReadList(b: seq<Byte>): (r: Option<(seq<OrbId>, seq<Byte>)>)
    ensures r.Some? ==> |r.value.0| < 256 && |r.value.1| < |b|
  {
    if b == [] then None
    else
      var n: nat, tail := b[0], b[1..];
      if |tail| < 2 * n then None else Some((ReadIds(n, tail[..2 * n]), tail[2 * n..]))
  }

  /** Field text up to its zero byte and the bytes after it. */
  function ReadText(b: seq<Byte>): (r: Option<(seq<Byte>, seq<Byte>)>)
    ensures r.Some? ==> |r.value.1| < |b|
  {
    var n := TextLength(b);
    if n == |b| then None else Some((b[..n], b[n + 1..]))
  }

  function ReadRecord(b: seq<Byte>): (r: Option<(Record, seq<Byte>)>)
    ensures r.Some? ==> Storable(r.value.0) && |r.value.1| < |b|
  {
    match ReadList(b)
    case None => None
    case Some((orbIds, b1)) =>
      match ReadList(b1)
      case None => None
      case Some((dependencies, b2)) =>
        match ReadText(b2)
        case None => None
        case Some((fields, b3)) => Some((Record(orbIds, dependencies, fields), b3))
  }

  function Parse(b: seq<Byte>): Option<seq<Record>>
    decreases |b|
  {
    if b == [] then Some([])
    else
      match ReadRecord(b)
      case None => None
      case Some((r, rest)) =>
        match Parse(rest)
        case None => None
        case Some(rs) => Some([r] + rs)
  }

  // ----- unique decodability -----

  predicate NulFree(r: Record) {
    0 !in r.fields
  }

  lemma {:induction false} ReadIdBytes(ids: seq<OrbId>)
    ensures ReadIds(|ids|, IdBytes(ids)) == ids
  {
    if ids != [] {
      ReadIdBytes(ids[1..]);
      assert IdBytes(ids)[2..] == IdBytes(ids[1..]);
    }
  }

  lemma SplitAt(a: seq<Byte>, b: seq<Byte>)
    ensures (a + b)[..|a|] == a && (a + b)[|a|..] == b
  {
  }

  lemma ReadListParts(b: seq<Byte>, idBytes: seq<Byte>, rest: seq<Byte>)
    requires b != [] && b[1..] == idBytes + rest && |idBytes| == 2 * b[0] as int
    ensures ReadList(b) == Some((ReadIds(b[0], idBytes), rest))
  {
    hide ReadIds;
    SplitAt(idBytes, rest);
  }

  lemma ReadListBytes(ids: seq<OrbId>, rest: seq<Byte>)
    requires |ids| < 256
    ensures ReadList(ListBytes(ids) + rest) == Some((ids, rest))
  {
    ReadIdBytes(ids);
    hide IdBytes, ReadIds, ReadList;
    var b := ListBytes(ids) + rest;
    assert b[1..] == IdBytes(ids) + rest;
    ReadListParts(b, IdBytes(ids), rest);
  }

  lemma {:induction false} TextEnds(text: seq<Byte>, rest: seq<Byte>)
    requires 0 !in text
    ensures TextLength(text + [0] + rest) == |text|
  {
    if text != [] {
      TextEnds(text[1..], rest);
      assert (text + [0] + rest)[1..] == text[1..] + [0] + rest;
    }
  }

  lemma ReadTextBytes(text: seq<Byte>, rest: seq<Byte>)
    requires 0 !in text
    ensures ReadText(text + [0] + rest) == Some((text, rest))
  {
    TextEnds(text, rest);
    hide TextLength;
    var b := text + [0] + rest;
    assert b[..|text|] == text && b[|text| + 1..] == rest;
  }

  lemma ReadRecordBytes(r: Record, rest: seq<Byte>)
    requires Storable(r) && NulFree(r)
    ensures ReadRecord(RecordBytes(r) + rest) == Some((r, rest))
  {
    hide ListBytes, ReadList, ReadText;
    var text := r.fields + [0] + rest;
    var list := ListBytes(r.dependencies) + text;
    assert RecordBytes(r) + rest == ListBytes(r.orbIds) + list;
    ReadListBytes(r.orbIds, list);
    ReadListBytes(r.dependencies, text);
    ReadTextBytes(r.fields, rest);
  }

  lemma ParseOne(b: seq<Byte>, r: Record, rest: seq<Byte>, rs: seq<Record>)
    requires b != [] && ReadRecord(b) == Some((r, rest)) && Parse(rest) == Some(rs)
    ensures Parse(b) == Some([r] + rs)
  {
    hide ReadRecord;
  }

  lemma {:induction false} ParseSerialize(rs: seq<Record>)
    requires AllStorable(rs)
    requires forall i :: 0 <= i < |rs| ==> NulFree(rs[i])
    ensures Parse(Serialize(rs)) == Some(rs)
  {
    if rs != [] {
      ReadRecordBytes(rs[0], Serialize(rs[1..]));
      ParseSerialize(rs[1..]);
      hide RecordBytes, ReadRecord, Parse;
      ParseOne(Serialize(rs), rs[0], Serialize(rs[1..]), rs[1..]);
      assert rs == [rs[0]] + rs[1..];
    }
  }

  lemma {:induction false} TextIsNulFree(b: seq<Byte>)
    ensures 0 !in b[..TextLength(b)]
  {
    if b != [] && b[0] != 0 {
      TextIsNulFree(b[1..]);
      assert b[..TextLength(b)] == [b[0]] + b[1..][..TextLength(b[1..])];
    }
  }

  lemma ReadIsNulFree(b: seq<Byte>)
    ensures ReadRecord(b).Some? ==> NulFree(ReadRecord(b).value.0)
  {
    if ReadRecord(b).Some? {
      var (orbIds, b1) := ReadList(b).value;
      var (dependencies, b2) := ReadList(b1).value;
      TextIsNulFree(b2);
    }
  }

  lemma {:induction false} ParsedIsNulFree(b: seq<Byte>)
    ensures Parse(b).Some? ==> forall i :: 0 <= i < |Parse(b).value| ==> NulFree(Parse(b).value[i])
    decreases |b|
  {
    hide ReadRecord, NulFree;
    if b != [] && ReadRecord(b).Some? {
      ReadIsNulFree(b);
      ParsedIsNulFree(ReadRecord(b).value.1);
    }
  }

  /** A stream of records is read back as itself exactly when no field text contains a zero byte. */
  lemma SerializationIsUnique(rs: seq<Record>)
    requires AllStorable(rs)
    ensures Parse(Serialize(rs)) == Some(rs) <==> forall i :: 0 <= i < |rs| ==> NulFree(rs[i])
  {
    if forall i :: 0 <= i < |rs| ==> NulFree(rs[i]) {
      ParseSerialize(rs);
    }
    ParsedIsNulFree(Serialize(rs));
  }

  // ----- appending, as the generator does -----

  lemma {:induction false} IdBytesConcat(a: seq<OrbId>, b: seq<OrbId>)
    ensures IdBytes(a + b) == IdBytes(a) + IdBytes(b)
  {
    if a == [] {
      assert a + b == b;
    } else {
      IdBytesConcat(a[1..], b);
      assert (a + b)[1..] == a[1..] + b;
    }
  }

  lemma {:induction false} SerializeConcat(a: seq<Record>, b: seq<Record>)
    requires AllStorable(a) && AllStorable(b)
    ensures AllStorable(a + b) && Serialize(a + b) == Serialize(a) + Serialize(b)
  {
    hide RecordBytes;
    if a == [] {
      assert a + b == b;
    } else {
      SerializeConcat(a[1..], b);
      assert (a + b)[1..] == a[1..] + b;
    }
  }
}
