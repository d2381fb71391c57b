/** Directory clusters as the engine decodes them: 32-byte records, long-name records
    whose name fragments are gathered and attached, in reverse order, to the next normal
    record, and a count of free slots taken at the first free record. */
module Directory {
  import opened Bytes

  const RecordSize: nat := 32

  /** One decoded directory item: the long name gathered from the records before it
      (empty when there were none) and its own 32-byte record. */
  datatype FileEntry = FileEntry(longName: seq<byte>, record: seq<byte>)

  /** The decoded listing of a directory and the free-slot count stored beside it. */
  datatype Listing = Listing(entries: seq<FileEntry>, free: int)

  // ---------------------------------------------------------------------------
  // Long-name records (parseLFN)
  // ---------------------------------------------------------------------------

  /** The offset of name unit j (0..12) of a long-name record: five units from byte 1,
      six from byte 14, two from byte 28. */
  function UnitOffset(j: nat): (o: nat)
    requires j < 13
    ensures o + 1 < RecordSize
  {
    if j < 5 then 1 + 2 * j else if j < 11 then 14 + 2 * (j - 5) else 28 + 2 * (j - 11)
  }

  /** The units sit at bytes 1, 3, 5, 7, 9, 14, 16, 18, 20, 22, 24, 28 and 30, in order. */
  lemma UnitOffsetsInOrder()
    ensures seq(13, j requires 0 <= j < 13 => UnitOffset(j)) == [1, 3, 5, 7, 9, 14, 16, 18, 20, 22, 24, 28, 30]
  {
  }

  /** Unit j ends the name when both of its bytes are zero. */
  predicate IsTerminator(rec: seq<byte>, j: nat)
    requires |rec| == RecordSize && j < 13
  {
    rec[UnitOffset(j)] == 0 && rec[UnitOffset(j) + 1] == 0
  }

  /** The bytes unit j contributes: its low byte, then its high byte when non-zero. */
  function UnitBytes(rec: seq<byte>, j: nat): (r: seq<byte>)
    requires |rec| == RecordSize && j < 13
    ensures 1 <= |r| <= 2 && r[0] == rec[UnitOffset(j)]
  {
    var o := UnitOffset(j);
    [rec[o]] + (if rec[o + 1] != 0 then [rec[o + 1]] else [])
  }

  /** The name bytes of a long-name record from unit k on, as the engine collects them:
      units in order, stopping at the first terminator. */
  function ParseLfnFrom(rec: seq<byte>, k: nat): seq<byte>
    requires |rec| == RecordSize && k <= 13
    decreases 13 - k
  {
    if k == 13 || IsTerminator(rec, k) then [] else UnitBytes(rec, k) + ParseLfnFrom(rec, k + 1)
  }

  /** `parseLFN`: the name fragment of one long-name record, as bytes. */
  function ParseLfn(rec: seq<byte>): seq<byte>
    requires |rec| == RecordSize
  {
    ParseLfnFrom(rec, 0)
  }

  /** The index of the first terminating unit at or after k, or 13 when there is none. */
  function TerminatorFrom(rec: seq<byte>, k: nat): (t: nat)
    requires |rec| == RecordSize && k <= 13
    ensures k <= t <= 13
    ensures t < 13 ==> IsTerminator(rec, t)
    ensures forall j :: k <= j < t ==> !IsTerminator(rec, j)
    decreases 13 - k
  {
    if k == 13 || IsTerminator(rec, k) then k else TerminatorFrom(rec, k + 1)
  }

  /** The reference: the contributions of units 0 .. t-1 laid end to end. */
  function UnitsBefore(rec: seq<byte>, t: nat): seq<byte>
    requires |rec| == RecordSize && t <= 13
  {
    if t == 0 then [] else UnitsBefore(rec, t - 1) + UnitBytes(rec, t - 1)
  }

  /** Each unit adds one or two bytes. */
  lemma {:induction false} UnitsBeforeLength(rec: seq<byte>, t: nat)
    requires |rec| == RecordSize && t <= 13
    ensures t <= |UnitsBefore(rec, t)| <= 2 * t
  {
    if t > 0 {
      UnitsBeforeLength(rec, t - 1);
    }
  }

  lemma AppendAssociates(a: seq<byte>, b: seq<byte>, c: seq<byte>)
    ensures (a + b) + c == a + (b + c)
  {
  }

  lemma {:induction false} ParseLfnFromIsUnits(rec: seq<byte>, k: nat)
    requires |rec| == RecordSize && k <= 13
    ensures UnitsBefore(rec, k) + ParseLfnFrom(rec, k) == UnitsBefore(rec, TerminatorFrom(rec, k))
    decreases 13 - k
  {
    if k < 13 && !IsTerminator(rec, k) {
      ParseLfnFromIsUnits(rec, k + 1);
      AppendAssociates(UnitsBefore(rec, k), UnitBytes(rec, k), ParseLfnFrom(rec, k + 1));
    }
  }

  /** The fragment of a long-name record is exactly the contributions of the units before
      the first terminator, so it holds between one and two bytes per such unit, at most
      26 in all, and nothing stored after the terminator reaches it. */
  lemma ParseLfnIsUnitsBeforeTerminator(rec: seq<byte>)
    requires |rec| == RecordSize
    ensures ParseLfn(rec) == UnitsBefore(rec, TerminatorFrom(rec, 0))
    ensures TerminatorFrom(rec, 0) <= |ParseLfn(rec)| <= 2 * TerminatorFrom(rec, 0) <= 26
  {
    ParseLfnFromIsUnits(rec, 0);
    UnitsBeforeLength(rec, TerminatorFrom(rec, 0));
  }

  // ---------------------------------------------------------------------------
  // Records and their kinds
  // ---------------------------------------------------------------------------

  datatype Kind = Free | Deleted | LongName | Normal

  /** How the engine classifies a record: byte 0 zero starts the free area, 0xE5 marks a
      deleted record, attribute byte 11 equal to 0x0F, 0x1F, 0x2F or 0x3F marks a
      long-name record, anything else is a normal entry. */
  function KindOf(rec: seq<byte>): Kind
    requires |rec| == RecordSize
  {
    if rec[0] == 0x00 then Free
    else if rec[0] == 0xE5 then Deleted
    else if rec[11] == 0x0F || rec[11] == 0x1F || rec[11] == 0x2F || rec[11] == 0x3F then LongName
    else Normal
  }

  /** Record q of a directory buffer. */
  function Record(data: seq<byte>, q: nat): (r: seq<byte>)
    requires 32 * q + RecordSize <= |data|
    ensures |r| == RecordSize
  {
    data[32 * q .. 32 * q + RecordSize]
  }

  /** The number of records in a buffer. */
  function RecordCount(data: seq<byte>): nat
  {
    |data| / RecordSize
  }

  /** The first record at or after q whose byte 0 is zero, or the record count. */
  function StopFrom(data: seq<byte>, q: nat): (s: nat)
    requires |data| % RecordSize == 0 && q <= RecordCount(data)
    ensures q <= s <= RecordCount(data)
    ensures s < RecordCount(data) ==> data[32 * s] == 0
    ensures forall p :: q <= p < s ==> data[32 * p] != 0
    decreases RecordCount(data) - q
  {
    if q == RecordCount(data) || data[32 * q] == 0 then q else StopFrom(data, q + 1)
  }

  /** Where decoding stops: the first free record, or the end of the buffer. */
  function Stop(data: seq<byte>): nat
    requires |data| % RecordSize == 0
  {
    StopFrom(data, 0)
  }

  // ---------------------------------------------------------------------------
  // Decoding a directory (getFileEntries)
  // ---------------------------------------------------------------------------

  /** The fragments concatenated last-gathered first. */
  function JoinReversed(fragments: seq<seq<byte>>): seq<byte>
  {
    if fragments == [] then [] else JoinReversed(fragments[1..]) + fragments[0]
  }

  /** The long-name fragments gathered after reading records 0 .. q-1: a long-name record
      adds its fragment, a normal record clears them, a deleted record leaves them. */
  function Pending(data: seq<byte>, q: nat): seq<seq<byte>>
    requires |data| % RecordSize == 0 && q <= RecordCount(data)
  {
    if q == 0 then []
    else
      var rec := Record(data, q - 1);
      match KindOf(rec)
      case LongName => Pending(data, q - 1) + [ParseLfn(rec)]
      case Normal => []
      case _ => Pending(data, q - 1)
  }

  /** The entries produced by records 0 .. q-1: one per normal record, named by the
      fragments pending before it. */
  function Entries(data: seq<byte>, q: nat): seq<FileEntry>
    requires |data| % RecordSize == 0 && q <= RecordCount(data)
  {
    if q == 0 then []
    else
      var rec := Record(data, q - 1);
      Entries(data, q - 1) + (if KindOf(rec) == Normal then [FileEntry(JoinReversed(Pending(data, q - 1)), rec)] else [])
  }

  /** Every entry carries a whole 32-byte record. */
  lemma {:induction false} EntriesAreWholeRecords(data: seq<byte>, q: nat)
    requires |data| % RecordSize == 0 && q <= RecordCount(data)
    ensures forall k :: 0 <= k < |Entries(data, q)| ==> |Entries(data, q)[k].record| == RecordSize
  {
    if q > 0 {
      EntriesAreWholeRecords(data, q - 1);
    }
  }

  /** The engine's free-slot figure for `freeBytes` bytes from the first free record to the
      end: one more than the records there, and one more again unless that is a multiple
      of 32. */
  function FreeCount(freeBytes: nat): nat
  {
    var f := freeBytes / RecordSize + 1;
    if f % 32 != 0 then f + 1 else f
  }

  /** What `getFileEntries` returns and stores as the free count. Without a free record
      the count is zero. */
  function Decode(data: seq<byte>): Listing
    requires |data| % RecordSize == 0
  {
    var s := Stop(data);
    Listing(Entries(data, s), if s < RecordCount(data) then FreeCount(|data| - 32 * s) else 0)
  }

  /** The free-slot figure exceeds the number of free records m by one when m+1 is a
      multiple of 32 and by two otherwise. */
  lemma FreeCountOvershoots(m: nat)
    ensures FreeCount(32 * m) == (if (m + 1) % 32 == 0 then m + 1 else m + 2)
  {
    assert (32 * m) / RecordSize == m;
  }

  /** The indices of the normal records among 0 .. q-1, in order. */
  function NormalRecords(data: seq<byte>, q: nat): (ix: seq<nat>)
    requires |data| % RecordSize == 0 && q <= RecordCount(data)
    ensures forall j :: 0 <= j < |ix| ==> ix[j] < q
  {
    if q == 0 then []
    else NormalRecords(data, q - 1) + (if KindOf(Record(data, q - 1)) == Normal then [q - 1] else [])
  }

  /** Decoding yields exactly one entry per normal record, in record order, each holding
      that record and the fragments pending before it; long-name, deleted and free records
      yield none. */
  lemma {:induction false} EntriesFollowNormalRecords(data: seq<byte>, q: nat)
    requires |data| % RecordSize == 0 && q <= RecordCount(data)
    ensures |Entries(data, q)| == |NormalRecords(data, q)|
    ensures forall j :: 0 <= j < |Entries(data, q)| ==>
      var p := NormalRecords(data, q)[j];
      && KindOf(Record(data, p)) == Normal
      && Entries(data, q)[j] == FileEntry(JoinReversed(Pending(data, p)), Record(data, p))
  {
    if q > 0 {
      EntriesFollowNormalRecords(data, q - 1);
    }
  }

  /** The normal records come in strictly ascending order. */
  lemma {:induction false} NormalRecordsAscend(data: seq<byte>, q: nat)
    requires |data| % RecordSize == 0 && q <= RecordCount(data)
    ensures forall a, b :: 0 <= a < b < |NormalRecords(data, q)| ==> NormalRecords(data, q)[a] < NormalRecords(data, q)[b]
  {
    if q > 0 {
      NormalRecordsAscend(data, q - 1);
    }
  }

  /** A normal entry right after another normal entry, or first in the directory, gets the
      empty long name: the accumulator is cleared after each normal record and nothing
      marks "no long name" otherwise. */
  lemma NoFragmentsGiveEmptyName(data: seq<byte>, q: nat)
    requires |data| % RecordSize == 0 && q < RecordCount(data)
    requires q == 0 || KindOf(Record(data, q - 1)) == Normal
    ensures JoinReversed(Pending(data, q)) == []
  {
  }

  /** Long-name records directly before a normal record are attached last-first: with
      records q-2 and q-1 long-name records following a normal record (or the start), the
      name is the fragment of q-1 followed by that of q-2. */
  lemma TwoFragmentsReversed(data: seq<byte>, q: nat)
    requires |data| % RecordSize == 0 && 2 <= q <= RecordCount(data)
    requires q == 2 || KindOf(Record(data, q - 3)) == Normal
    requires KindOf(Record(data, q - 2)) == LongName && KindOf(Record(data, q - 1)) == LongName
    ensures JoinReversed(Pending(data, q)) == ParseLfn(Record(data, q - 1)) + ParseLfn(Record(data, q - 2))
  {
    var a, b := ParseLfn(Record(data, q - 2)), ParseLfn(Record(data, q - 1));
    assert Pending(data, q - 2) == [];
    PendingGrows(data, q - 1);
    PendingGrows(data, q);
    JoinReversedPair(a, b);
  }

  lemma PendingGrows(data: seq<byte>, q: nat)
    requires |data| % RecordSize == 0 && 0 < q <= RecordCount(data)
    requires KindOf(Record(data, q - 1)) == LongName
    ensures Pending(data, q) == Pending(data, q - 1) + [ParseLfn(Record(data, q - 1))]
  {
  }

  lemma JoinReversedPair(a: seq<byte>, b: seq<byte>)
    ensures JoinReversed([] + [a] + [b]) == b + a
  {
    var ab := [] + [a] + [b];
    var bs: seq<seq<byte>> := [b];
    assert ab[1..] == bs && ab[0] == a;
    assert bs[1..] == [];
    assert JoinReversed(bs) == [] + b;
  }

  /** The decoded records depend only on the bytes before q. */
  lemma {:induction false} EntriesDependOnPrefix(data: seq<byte>, data': seq<byte>, q: nat)
    requires |data| % RecordSize == 0 && |data'| == |data| && q <= RecordCount(data)
    requires data[..32 * q] == data'[..32 * q]
    ensures Pending(data, q) == Pending(data', q) && Entries(data, q) == Entries(data', q)
  {
    if q > 0 {
      assert data[..32 * (q - 1)] == data[..32 * q][..32 * (q - 1)];
      assert data'[..32 * (q - 1)] == data'[..32 * q][..32 * (q - 1)];
      EntriesDependOnPrefix(data, data', q - 1);
      assert Record(data, q - 1) == data[..32 * q][32 * (q - 1)..];
      assert Record(data', q - 1) == data'[..32 * q][32 * (q - 1)..];
    }
  }

  lemma {:induction false} StopDependsOnPrefix(data: seq<byte>, data': seq<byte>, q: nat)
    requires |data| % RecordSize == 0 && |data'| == |data| && q <= Stop(data) < RecordCount(data)
    requires data[..32 * Stop(data) + 1] == data'[..32 * Stop(data) + 1]
    ensures StopFrom(data', q) == Stop(data)
    decreases Stop(data) - q
  {
    var s := Stop(data);
    assert data'[32 * q] == data[..32 * s + 1][32 * q];
    if q < s {
      StopDependsOnPrefix(data, data', q + 1);
    }
  }

  /** Decoding stops at the first free record: buffers of the same length that agree up to
      and including byte 0 of that record decode to the same listing. */
  lemma DecodeIgnoresBytesAfterStop(data: seq<byte>, data': seq<byte>)
    requires |data| % RecordSize == 0 && |data'| == |data| && Stop(data) < RecordCount(data)
    requires data[..32 * Stop(data) + 1] == data'[..32 * Stop(data) + 1]
    ensures Decode(data') == Decode(data)
  {
    var s := Stop(data);
    StopDependsOnPrefix(data, data', 0);
    assert data[..32 * s] == data[..32 * s + 1][..32 * s];
    assert data'[..32 * s] == data'[..32 * s + 1][..32 * s];
    EntriesDependOnPrefix(data, data', s);
  }

  /** Decoding one more record gives the same result on two buffers that agree so far and
      on that record. */
  lemma DecodeStepAgrees(data: seq<byte>, data': seq<byte>, q: nat)
    requires |data| % RecordSize == 0 && |data'| == |data| && 0 < q <= RecordCount(data)
    requires Pending(data, q - 1) == Pending(data', q - 1) && Entries(data, q - 1) == Entries(data', q - 1)
    requires Record(data, q - 1) == Record(data', q - 1)
    ensures Pending(data, q) == Pending(data', q) && Entries(data, q) == Entries(data', q)
  {
  }

  /** A deleted record adds nothing: decoding it keeps the names gathered and the entries
      produced so far. */
  lemma DeletedStepAddsNothing(data: seq<byte>, q: nat)
    requires |data| % RecordSize == 0 && 0 < q <= RecordCount(data)
    requires KindOf(Record(data, q - 1)) == Deleted
    ensures Pending(data, q) == Pending(data, q - 1) && Entries(data, q) == Entries(data, q - 1)
  {
  }

  /** Decoding from record s to record q gives the same result on two buffers that agree
      so far and on every record from s to q. */
  lemma {:induction false} DecodeRunAgrees(data: seq<byte>, data': seq<byte>, s: nat, q: nat)
    requires |data| % RecordSize == 0 && |data'| == |data| && s <= q <= RecordCount(data)
    requires Pending(data, s) == Pending(data', s) && Entries(data, s) == Entries(data', s)
    requires forall r :: s <= r < q ==> Record(data, r) == Record(data', r)
    ensures Pending(data, q) == Pending(data', q) && Entries(data, q) == Entries(data', q)
    decreases q - s
  {
    if s < q {
      DecodeRunAgrees(data, data', s, q - 1);
      DecodeStepAgrees(data, data', q);
    }
  }

  /** Deleted records are skipped: two buffers whose records agree except record p,
      which is deleted in both, decode alike. */
  lemma DeletedRecordsAreSkipped(data: seq<byte>, data': seq<byte>, p: nat, q: nat)
    requires |data| % RecordSize == 0 && |data'| == |data| && p < q <= RecordCount(data)
    requires KindOf(Record(data, p)) == Deleted && KindOf(Record(data', p)) == Deleted
    requires forall r :: 0 <= r < RecordCount(data) && r != p ==> Record(data, r) == Record(data', r)
    ensures Pending(data, q) == Pending(data', q) && Entries(data, q) == Entries(data', q)
  {
    DecodeRunAgrees(data, data', 0, p);
    DeletedStepAddsNothing(data, p + 1);
    DeletedStepAddsNothing(data', p + 1);
    DecodeRunAgrees(data, data', p + 1, q);
  }

  // ---------------------------------------------------------------------------
  // Fields of a normal record, after the FAT directory-entry layout
  // ---------------------------------------------------------------------------

  /** The attribute byte has the directory bit (0x10) set. */
  predicate IsDirectory(e: FileEntry)
    requires |e.record| == RecordSize
  {
    (e.record[11] / 16) % 2 == 1
  }

  /** The first cluster: high word at bytes 20-21, low word at bytes 26-27. */
  function FirstCluster(e: FileEntry): (c: nat)
    requires |e.record| == RecordSize
    ensures c < TwoTo32
  {
    var r := e.record;
    65536 * (r[20] as int + 256 * r[21] as int) + r[26] as int + 256 * r[27] as int
  }

  /** The file size, bytes 28-31. */
  function Size(e: FileEntry): (s: nat)
    requires |e.record| == RecordSize
    ensures s < TwoTo32
  {
    Le32At(e.record, 28)
  }

  /** The bytes before the trailing spaces. */
  function TrimSpaces(s: seq<byte>): (r: seq<byte>)
    ensures |r| <= |s| && r == s[..|r|]
    ensures r != [] ==> r[|r| - 1] != 0x20
    ensures forall i :: |r| <= i < |s| ==> s[i] == 0x20
  {
    if s == [] || s[|s| - 1] != 0x20 then s else TrimSpaces(s[..|s| - 1])
  }

  /** The 8.3 short name: the base name, and a dot and the extension when it is not blank. */
  function ShortName(e: FileEntry): seq<byte>
    requires |e.record| == RecordSize
  {
    var base, ext := TrimSpaces(e.record[..8]), TrimSpaces(e.record[8..11]);
    if ext == [] then base else base + [0x2E] + ext
  }

  /** The name compared against: the long name unless it is empty. */
  function DisplayName(e: FileEntry): seq<byte>
    requires |e.record| == RecordSize
  {
    if e.longName != [] then e.longName else ShortName(e)
  }

  /** ASCII upper case. */
  function Upper(b: byte): byte
  {
    if 97 <= b <= 122 then b - 32 else b
  }

  /** Equality ignoring the case of ASCII letters. */
  predicate EqualsIgnoreCase(a: seq<byte>, b: seq<byte>)
  {
    |a| == |b| && forall i :: 0 <= i < |a| ==> Upper(a[i]) == Upper(b[i])
  }

  /** An entry answers to `name` as a directory (wantDir) or as a file (!wantDir). */
  predicate Matches(e: FileEntry, name: seq<byte>, wantDir: bool)
  {
    |e.record| == RecordSize && EqualsIgnoreCase(DisplayName(e), name) && IsDirectory(e) == wantDir
  }

  /** The index of the first matching entry from j on. */
  function FirstMatchFrom(listing: seq<FileEntry>, name: seq<byte>, wantDir: bool, j: nat): (r: Option<nat>)
    requires j <= |listing|
    ensures r.Some? ==>
      && j <= r.value < |listing| && Matches(listing[r.value], name, wantDir)
      && forall k :: j <= k < r.value ==> !Matches(listing[k], name, wantDir)
    ensures r.None? ==> forall k :: j <= k < |listing| ==> !Matches(listing[k], name, wantDir)
    decreases |listing| - j
  {
    if j == |listing| then None
    else if Matches(listing[j], name, wantDir) then Some(j)
    else FirstMatchFrom(listing, name, wantDir, j + 1)
  }

  /** The entry `changeDir` (wantDir) or `readFile` (!wantDir) acts on: the first whose
      name equals `name` ignoring case and whose directory flag is wantDir. */
  function FirstMatch(listing: seq<FileEntry>, name: seq<byte>, wantDir: bool): Option<nat>
  {
    FirstMatchFrom(listing, name, wantDir, 0)
  }

  /** Case is ignored in both directions and only for letters. */
  lemma EqualsIgnoreCaseSymmetric(a: seq<byte>, b: seq<byte>)
    ensures EqualsIgnoreCase(a, b) <==> EqualsIgnoreCase(b, a)
    ensures EqualsIgnoreCase(a, a)
  {
  }
}
