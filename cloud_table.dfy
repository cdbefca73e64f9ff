/** The pbms_cloud system table of plugin/pbms/src/SysTab_cloud.cc: the
    cloud storage references gCloudInfo (a sparse array ordered by id), the
    next free id gMaxInfoRef, and the scan cursor iCloudIndex of an open
    table.  Rows come in and out as CloudInfo values; saving the table after
    each change, and reading and writing the .dat file, are left to the
    caller (the file's records are an input of LoadTable). */
module CloudTable {
  import opened Common

  /** One reference: the row's columns Id, Server, Bucket, PublicKey and
      PrivateKey. */
  datatype CloudInfo = CloudInfo(id: nat, server: string, bucket: string, publicKey: string, privateKey: string)

  /** Outcome of a change: MS_ERR_DUPLICATE is thrown for a clashing id. */
  datatype Outcome = Ok | Duplicate

  /** How many characters of a private key a scan shows, as '*'. */
  const MAX_PASSWORD := 64

  // ---------------------------------------------------------------------
  // gCloudInfo: entries in increasing id order
  // ---------------------------------------------------------------------

  predicate Sorted(s: seq<CloudInfo>)
  {
    forall i, j :: 0 <= i < j < |s| ==> s[i].id < s[j].id
  }

  /** get(id). */
  function Get(s: seq<CloudInfo>, id: nat): (r: Option<CloudInfo>)
    ensures r.Some? ==> r.value in s && r.value.id == id
    ensures (exists e :: e in s && e.id == id) ==> r.Some?
  {
    if s == [] then None else if s[0].id == id then Some(s[0]) else Get(s[1..], id)
  }

  /** getIndex(id): the position of `id`, or where it would go. */
  function IndexOf(s: seq<CloudInfo>, id: nat): (r: nat)
    ensures r <= |s|
  {
    if s == [] || s[0].id >= id then 0 else 1 + IndexOf(s[1..], id)
  }

  /** set(id, info): replaces the entry with that id, or inserts it in
      order. */
  function Put(s: seq<CloudInfo>, info: CloudInfo): (r: seq<CloudInfo>)
    ensures info in r
    ensures |r| == |s| || |r| == |s| + 1
  {
    if s == [] then [info]
    else if s[0].id == info.id then [info] + s[1..]
    else if s[0].id > info.id then [info] + s
    else [s[0]] + Put(s[1..], info)
  }

  /** remove(id). */
  function Remove(s: seq<CloudInfo>, id: nat): (r: seq<CloudInfo>)
    ensures |r| <= |s|
    ensures forall e :: e in r ==> e.id != id
  {
    if s == [] then []
    else if s[0].id == id then Remove(s[1..], id)
    else [s[0]] + Remove(s[1..], id)
  }

  /** In an ordered array, get finds exactly the entry with that id. */
  lemma {:induction false} GetSorted(s: seq<CloudInfo>, id: nat)
    requires Sorted(s)
    ensures Get(s, id).Some? <==> exists i :: 0 <= i < |s| && s[i].id == id
    ensures Get(s, id).Some? ==> Get(s, id).value in s && Get(s, id).value.id == id
  {
    if s != [] && s[0].id != id {
      GetSorted(s[1..], id);
      if exists i :: 0 <= i < |s| && s[i].id == id {
        var i :| 0 <= i < |s| && s[i].id == id;
        assert s[1..][i - 1].id == id;
      }
    }
  }

  /** Put keeps the order; afterwards `info` is the one entry with its id
      and the others are those of `s` with another id. */
  lemma PutSorted(s: seq<CloudInfo>, info: CloudInfo)
    requires Sorted(s)
    ensures Sorted(Put(s, info))
    ensures forall e :: e in Put(s, info) <==> e == info || (e in s && e.id != info.id)
  {
    PutMembers(s, info);
    PutKeepsOrder(s, info);
  }

  lemma {:induction false} PutMembers(s: seq<CloudInfo>, info: CloudInfo)
    requires Sorted(s)
    ensures forall e :: e in Put(s, info) <==> e == info || (e in s && e.id != info.id)
  {
    if s != [] && s[0].id < info.id {
      PutMembers(s[1..], info);
      assert Put(s, info) == [s[0]] + Put(s[1..], info);
      forall e
        ensures e in Put(s, info) <==> e == info || (e in s && e.id != info.id)
      {
        assert e in s <==> e == s[0] || e in s[1..];
      }
    } else if s != [] && s[0].id == info.id {
      forall e
        ensures e in Put(s, info) <==> e == info || (e in s && e.id != info.id)
      {
        if e in s[1..] {
          var i :| 0 <= i < |s[1..]| && s[1..][i] == e;
          assert s[i + 1] == e;
        }
        assert e in s <==> e == s[0] || e in s[1..];
      }
    }
  }

  lemma {:induction false} PutKeepsOrder(s: seq<CloudInfo>, info: CloudInfo)
    requires Sorted(s)
    ensures Sorted(Put(s, info))
  {
    if s != [] && s[0].id < info.id {
      PutKeepsOrder(s[1..], info);
      PutMembers(s[1..], info);
      var t := Put(s[1..], info);
      forall e | e in t
        ensures s[0].id < e.id
      {
        if e != info {
          var i :| 0 <= i < |s[1..]| && s[1..][i] == e;
        }
      }
      ConsSorted(s[0], t);
    }
  }

  /** An entry before sorted entries with larger ids. */
  lemma ConsSorted(x: CloudInfo, t: seq<CloudInfo>)
    requires Sorted(t) && forall e :: e in t ==> x.id < e.id
    ensures Sorted([x] + t)
  {
    var r := [x] + t;
    forall i, j | 0 <= i < j < |r|
      ensures r[i].id < r[j].id
    {
      assert r[j] == t[j - 1];
      if i == 0 {
        assert r[j] in t;
      } else {
        assert r[i] == t[i - 1];
      }
    }
  }

  /** Remove keeps the order and drops exactly the entries with `id`. */
  lemma RemoveSorted(s: seq<CloudInfo>, id: nat)
    requires Sorted(s)
    ensures Sorted(Remove(s, id))
    ensures forall e :: e in Remove(s, id) <==> e in s && e.id != id
  {
    RemoveMembers(s, id);
    RemoveKeepsOrder(s, id);
  }

  lemma {:induction false} RemoveMembers(s: seq<CloudInfo>, id: nat)
    ensures forall e :: e in Remove(s, id) <==> e in s && e.id != id
  {
    if s != [] {
      RemoveMembers(s[1..], id);
      forall e
        ensures e in Remove(s, id) <==> e in s && e.id != id
      {
        assert e in s <==> e == s[0] || e in s[1..];
      }
    }
  }

  lemma {:induction false} RemoveKeepsOrder(s: seq<CloudInfo>, id: nat)
    requires Sorted(s)
    ensures Sorted(Remove(s, id))
  {
    if s != [] {
      RemoveKeepsOrder(s[1..], id);
      RemoveMembers(s[1..], id);
      var t := Remove(s[1..], id);
      if s[0].id != id {
        forall e | e in t
          ensures s[0].id < e.id
        {
          var i :| 0 <= i < |s[1..]| && s[1..][i] == e;
        }
        ConsSorted(s[0], t);
      }
    }
  }

  /** The entry at position `i` is found at `i` and removing it closes the
      gap. */
  lemma RemoveAt(s: seq<CloudInfo>, i: nat)
    requires Sorted(s) && i < |s|
    ensures IndexOf(s, s[i].id) == i
    ensures Remove(s, s[i].id) == s[..i] + s[i + 1..]
  {
    IndexOfAt(s, i);
    RemoveAtCloses(s, i);
  }

  lemma {:induction false} IndexOfAt(s: seq<CloudInfo>, i: nat)
    requires Sorted(s) && i < |s|
    ensures IndexOf(s, s[i].id) == i
  {
    if i > 0 {
      assert s[1..][i - 1] == s[i];
      IndexOfAt(s[1..], i - 1);
    }
  }

  lemma {:induction false} RemoveAtCloses(s: seq<CloudInfo>, i: nat)
    requires Sorted(s) && i < |s|
    ensures Remove(s, s[i].id) == s[..i] + s[i + 1..]
  {
    if i == 0 {
      RemoveAbsent(s[1..], s[0].id);
      assert s[..0] + s[1..] == s[1..];
    } else {
      assert s[1..][i - 1] == s[i];
      RemoveAtCloses(s[1..], i - 1);
      assert [s[0]] + (s[1..][..i - 1] + s[1..][i..]) == s[..i] + s[i + 1..];
    }
  }

  /** Removing an id smaller than every entry's changes nothing. */
  lemma {:induction false} RemoveAbsent(s: seq<CloudInfo>, id: nat)
    requires Sorted(s) && forall k :: 0 <= k < |s| ==> id < s[k].id
    ensures Remove(s, id) == s
  {
    if s != [] {
      RemoveAbsent(s[1..], id);
    }
  }

  /** All ids below the next free one. */
  predicate Below(s: seq<CloudInfo>, maxInfoRef: nat)
  {
    forall e :: e in s ==> e.id < maxInfoRef
  }

  /** Before the first load (gMaxInfoRef 0) the array is empty. */
  lemma NothingBelowZero(s: seq<CloudInfo>)
    requires Below(s, 0)
    ensures s == []
  {
    if s != [] {
      FirstIsIn(s);
      assert false;
    }
  }

  /** Kept apart from NothingBelowZero: there `s[0] in s` would be checked
      under the contradiction it is meant to expose. */
  lemma FirstIsIn(s: seq<CloudInfo>)
    requires s != []
    ensures s[0] in s
  {
  }

  // ---------------------------------------------------------------------
  // What a scan shows
  // ---------------------------------------------------------------------

  /** The private key as a scan shows it. */
  function Mask(key: string): (r: string)
    ensures |r| == Min(|key|, MAX_PASSWORD)
    ensures forall k :: 0 <= k < |r| ==> r[k] == '*'
  {
    seq(Min(|key|, MAX_PASSWORD), _ => '*')
  }

  /** The row the scan returns for position `i` (itemAt gives NULL outside
      the array). */
  function ScanRow(s: seq<CloudInfo>, i: int): (r: Option<CloudInfo>)
    ensures r.Some? <==> 0 <= i < |s|
    ensures r.Some? ==> r.value == s[i].(privateKey := Mask(s[i].privateKey))
  {
    if 0 <= i < |s| then Some(s[i].(privateKey := Mask(s[i].privateKey))) else None
  }

  /** The 4-byte big-endian position seqScanPos stores. */
  function ScanPosition(cloudIndex: int): (r: seq<byte>)
    ensures |r| == 4
  {
    BE(Max(cloudIndex - 1, 0), 4)
  }

  /** Reading back the stored position of the row a scan returned gives
      that row again. */
  lemma PositionRoundTrip(s: seq<CloudInfo>, cloudIndex: int)
    requires 1 <= cloudIndex < Pow256(4)
    ensures FromBE(ScanPosition(cloudIndex)) == cloudIndex - 1
    ensures ScanRow(s, FromBE(ScanPosition(cloudIndex))) == ScanRow(s, cloudIndex - 1)
  {
    var n := cloudIndex - 1;
    assert ScanPosition(cloudIndex) == BE(n, 4);
    BERoundTrip(n, 4);
    assert n % Pow256(4) == n;
  }

  /** Deleting the row the scan last returned leaves the cursor on the row
      that followed it. */
  lemma DeleteKeepsScanPosition(s: seq<CloudInfo>, cloudIndex: int)
    requires Sorted(s) && 1 <= cloudIndex <= |s|
    ensures var id := s[cloudIndex - 1].id;
      IndexOf(s, id) <= cloudIndex &&
      ScanRow(Remove(s, id), cloudIndex - 1) == ScanRow(s, cloudIndex)
  {
    RemoveAt(s, cloudIndex - 1);
    var t := s[..cloudIndex - 1] + s[cloudIndex..];
    if cloudIndex < |s| {
      assert t[cloudIndex - 1] == s[cloudIndex];
    }
  }

  // ---------------------------------------------------------------------
  // loadTable's records
  // ---------------------------------------------------------------------

  /** A record of pbms_cloud.dat as SysTabRec reads it: whether it is
      valid, the id, and the four strings.  The first record holds only
      gMaxInfoRef. */
  datatype Record = Record(valid: bool, id: nat, server: string, bucket: string, publicKey: string, privateKey: string)

  /** gMaxInfoRef from the first record: 1 when it is missing or invalid. */
  function FirstMax(records: seq<Record>): nat
  {
    if records == [] || !records[0].valid then 1 else records[0].id
  }

  function InfoOf(rec: Record): CloudInfo
  {
    CloudInfo(rec.id, rec.server, rec.bucket, rec.publicKey, rec.privateKey)
  }

  /** One data record as written: an id beyond gMaxInfoRef moves it to
      id + 1; a known id is ignored. */
  function LoadStepAsWritten(s: seq<CloudInfo>, maxInfoRef: nat, rec: Record): (r: (seq<CloudInfo>, nat))
    ensures r.0 == LoadStep(s, maxInfoRef, rec).0
    ensures r.1 == LoadStep(s, maxInfoRef, rec).1 || (rec.valid && rec.id == maxInfoRef && r.1 == maxInfoRef)
  {
    if !rec.valid then (s, maxInfoRef)
    else
      var m := if rec.id > maxInfoRef then rec.id + 1 else maxInfoRef;
      if Get(s, rec.id).Some? then (s, m) else (Put(s, InfoOf(rec)), m)
  }

  /** One data record with the test insertRow uses: an id at or beyond
      gMaxInfoRef moves it to id + 1. */
  function LoadStep(s: seq<CloudInfo>, maxInfoRef: nat, rec: Record): (r: (seq<CloudInfo>, nat))
    ensures r.1 >= maxInfoRef && (rec.valid ==> r.1 > rec.id)
  {
    if !rec.valid then (s, maxInfoRef)
    else
      var m := if rec.id >= maxInfoRef then rec.id + 1 else maxInfoRef;
      if Get(s, rec.id).Some? then (s, m) else (Put(s, InfoOf(rec)), m)
  }

  function LoadRecords(s: seq<CloudInfo>, maxInfoRef: nat, records: seq<Record>): (r: (seq<CloudInfo>, nat))
    ensures r.1 >= maxInfoRef
    ensures forall k :: 0 <= k < |records| && records[k].valid ==> r.1 > records[k].id
    decreases |records|
  {
    if records == [] then (s, maxInfoRef)
    else
      var (s1, m1) := LoadStep(s, maxInfoRef, records[0]);
      assert forall k :: 1 <= k < |records| ==> records[1..][k - 1] == records[k];
      LoadRecords(s1, m1, records[1..])
  }

  /** The table loadTable builds from the file's records. */
  function Load(records: seq<Record>): (r: (seq<CloudInfo>, nat))
    ensures forall k :: 1 <= k < |records| && records[k].valid ==> r.1 > records[k].id
  {
    assert records != [] ==> forall k :: 1 <= k < |records| ==> records[1..][k - 1] == records[k];
    LoadRecords([], FirstMax(records), if records == [] then [] else records[1..])
  }

  /** Every record step keeps the table ordered with all ids below
      gMaxInfoRef. */
  lemma LoadStepKeepsInvariant(s: seq<CloudInfo>, maxInfoRef: nat, rec: Record)
    requires Sorted(s) && Below(s, maxInfoRef)
    ensures var (s1, m1) := LoadStep(s, maxInfoRef, rec); Sorted(s1) && Below(s1, m1)
  {
    if rec.valid && Get(s, rec.id).None? {
      PutSorted(s, InfoOf(rec));
    }
  }

  lemma {:induction false} LoadRecordsKeepsInvariant(s: seq<CloudInfo>, maxInfoRef: nat, records: seq<Record>)
    requires Sorted(s) && Below(s, maxInfoRef)
    ensures var (s1, m1) := LoadRecords(s, maxInfoRef, records); Sorted(s1) && Below(s1, m1)
    decreases |records|
  {
    if records != [] {
      var (s1, m1) := LoadStep(s, maxInfoRef, records[0]);
      LoadStepKeepsInvariant(s, maxInfoRef, records[0]);
      LoadRecordsKeepsInvariant(s1, m1, records[1..]);
    }
  }

  /** A loaded table, whatever the file holds, has every id below the next
      free one, so a later insert never reuses a loaded id. */
  lemma LoadIsValid(records: seq<Record>)
    ensures var (s, m) := Load(records); Sorted(s) && Below(s, m)
  {
    LoadRecordsKeepsInvariant([], FirstMax(records), if records == [] then [] else records[1..]);
  }

  /** A file whose first data record repeats the header's id: as written
      the id is loaded without moving gMaxInfoRef past it, so the next
      insert with id 0 is given id 1 and replaces the loaded entry. */
  lemma LoadAsWrittenReusesId()
    ensures var rec := Record(true, 1, "s", "b", "p", "k");
      var (s, m) := LoadStepAsWritten([], 1, rec);
      s == [InfoOf(rec)] && m == 1 && !Below(s, m) &&
      |Put(s, CloudInfo(m, "t", "c", "q", "l"))| == 1 &&
      LoadStep([], 1, rec) == ([InfoOf(rec)], 2)
  {
  }

  /** updateRow as written: the entry is replaced but gMaxInfoRef stays. */
  function UpdateAsWritten(s: seq<CloudInfo>, maxInfoRef: nat, oldId: nat, info: CloudInfo): (r: (seq<CloudInfo>, nat))
    ensures info in r.0 && r.1 == maxInfoRef
  {
    (Put(Remove(s, oldId), info), maxInfoRef)
  }

  /** Moving reference 1 to id 2 while gMaxInfoRef is 2: as written the
      next insert with id 0 is given id 2 and overwrites the moved entry. */
  lemma UpdateAsWrittenReusesId()
    ensures var a := CloudInfo(1, "s", "b", "p", "k");
      var (s, m) := UpdateAsWritten([a], 2, 1, a.(id := 2));
      s == [a.(id := 2)] && m == 2 && !Below(s, m) &&
      Put(s, CloudInfo(m, "t", "c", "q", "l")) == [CloudInfo(2, "t", "c", "q", "l")]
  {
    var a := CloudInfo(1, "s", "b", "p", "k");
    assert Remove([a], 1) == [];
  }

  class CloudTable {
    var entries: seq<CloudInfo>
    var maxInfoRef: nat
    var cloudIndex: int

    /** The array is ordered and every id is below the next free one. */
    ghost predicate Valid()
      reads this
    {
      Sorted(entries) && Below(entries, maxInfoRef)
    }

    /** startUp, and the constructor's iCloudIndex(0): nothing loaded. */
    constructor()
      ensures Valid() && entries == [] && maxInfoRef == 0 && cloudIndex == 0
    {
      entries, maxInfoRef, cloudIndex := [], 0, 0;
    }

    /** loadTable: reads the file once, while gMaxInfoRef is still 0;
        `file` is None when pbms_cloud.dat does not exist. */
    method LoadTable(file: Option<seq<Record>>)
      requires Valid()
      modifies this`entries, this`maxInfoRef
      ensures Valid()
      ensures old(maxInfoRef) != 0 ==> entries == old(entries) && maxInfoRef == old(maxInfoRef)
      ensures old(maxInfoRef) == 0 && file.None? ==> entries == [] && maxInfoRef == 1
      ensures old(maxInfoRef) == 0 && file.Some? ==> (entries, maxInfoRef) == Load(file.value)
    {
      if maxInfoRef != 0 {
        return;
      }
      NothingBelowZero(entries);
      if file.None? {
        maxInfoRef := 1;
        return;
      }
      var records := file.value;
      maxInfoRef := FirstMax(records);
      var rest := if records == [] then [] else records[1..];
      var i := 0;
      while i < |rest|
        invariant 0 <= i <= |rest|
        invariant LoadRecords(entries, maxInfoRef, rest[i..]) == Load(records)
      {
        assert rest[i..][0] == rest[i] && rest[i..][1..] == rest[i + 1..];
        var rec := rest[i];
        if rec.valid {
          if rec.id >= maxInfoRef {
            maxInfoRef := rec.id + 1;
          }
          if Get(entries, rec.id).None? {
            entries := Put(entries, InfoOf(rec));
          }
        }
        i := i + 1;
      }
      LoadIsValid(records);
    }

    /** seqScanInit. */
    method ScanInit()
      modifies this`cloudIndex
      ensures cloudIndex == 0
    {
      cloudIndex := 0;
    }

    /** The masking loop of seqScanNext. */
    static method MaskPassword(key: string) returns (passwd: string)
      ensures passwd == Mask(key)
    {
      passwd := [];
      while |passwd| < MAX_PASSWORD && |passwd| < |key|
        invariant |passwd| <= Min(|key|, MAX_PASSWORD)
        invariant forall k :: 0 <= k < |passwd| ==> passwd[k] == '*'
      {
        passwd := passwd + ['*'];
      }
    }

    /** seqScanNext: the row at the cursor, the cursor moving on even past
        the end. */
    method ScanNext() returns (row: Option<CloudInfo>)
      modifies this`cloudIndex
      ensures cloudIndex == old(cloudIndex) + 1
      ensures row == ScanRow(entries, old(cloudIndex))
    {
      var i := cloudIndex;
      cloudIndex := cloudIndex + 1;
      if !(0 <= i < |entries|) {
        return None;
      }
      var info := entries[i];
      var passwd := MaskPassword(info.privateKey);
      row := Some(info.(privateKey := passwd));
    }

    /** seqScanPos: the position of the row last returned, never below 0. */
    method ScanPos() returns (pos: seq<byte>)
      ensures pos == ScanPosition(cloudIndex)
    {
      var index := cloudIndex - 1;
      if index < 0 {
        index := 0;
      }
      pos := BE(index, 4);
    }

    /** seqScanRead: back to a stored position, then the next row. */
    method ScanRead(pos: seq<byte>) returns (row: Option<CloudInfo>)
      requires |pos| == 4
      modifies this`cloudIndex
      ensures cloudIndex == FromBE(pos) + 1
      ensures row == ScanRow(entries, FromBE(pos))
    {
      cloudIndex := FromBE(pos);
      row := ScanNext();
    }

    /** insertRow: id 0 takes gMaxInfoRef, which moves on; an explicit id
        must be new and moves gMaxInfoRef past itself. */
    method InsertRow(row: CloudInfo) returns (outcome: Outcome)
      requires Valid()
      modifies this`entries, this`maxInfoRef
      ensures Valid()
      ensures outcome == Duplicate <==> row.id != 0 && Get(old(entries), row.id).Some?
      ensures outcome == Duplicate ==> entries == old(entries) && maxInfoRef == old(maxInfoRef)
      ensures outcome == Ok ==>
        var id := if row.id == 0 then old(maxInfoRef) else row.id;
        entries == Put(old(entries), row.(id := id)) && id < maxInfoRef &&
        maxInfoRef == (if row.id == 0 then old(maxInfoRef) + 1 else Max(old(maxInfoRef), row.id + 1))
    {
      if row.id != 0 && Get(entries, row.id).Some? {
        return Duplicate;
      }
      var refId := row.id;
      if refId == 0 {
        refId := maxInfoRef;
        maxInfoRef := maxInfoRef + 1;
      } else if refId >= maxInfoRef {
        maxInfoRef := refId + 1;
      }
      PutSorted(entries, row.(id := refId));
      entries := Put(entries, row.(id := refId));
      outcome := Ok;
    }

    /** updateRow: the new id must not belong to another entry; an
        unchanged (masked) private key keeps the stored one; the entry is
        replaced, the cursor steps back when it moved past it, and
        gMaxInfoRef is moved past the new id as insertRow does. */
    method UpdateRow(oldRow: CloudInfo, newRow: CloudInfo) returns (outcome: Outcome)
      requires Valid() && Get(entries, oldRow.id).Some?
      modifies this`entries, this`maxInfoRef, this`cloudIndex
      ensures Valid()
      ensures outcome == Duplicate <==> oldRow.id != newRow.id && Get(old(entries), newRow.id).Some?
      ensures outcome == Duplicate ==>
        entries == old(entries) && maxInfoRef == old(maxInfoRef) && cloudIndex == old(cloudIndex)
      ensures outcome == Ok ==>
        var key := if newRow.privateKey != oldRow.privateKey then newRow.privateKey
                   else Get(old(entries), oldRow.id).value.privateKey;
        entries == Put(Remove(old(entries), oldRow.id), newRow.(privateKey := key)) &&
        maxInfoRef == Max(old(maxInfoRef), newRow.id + 1) &&
        cloudIndex == old(cloudIndex) - (if IndexOf(old(entries), oldRow.id) < IndexOf(entries, newRow.id) then 1 else 0)
    {
      if oldRow.id != newRow.id && Get(entries, newRow.id).Some? {
        return Duplicate;
      }
      var realPrivKey := newRow.privateKey;
      if newRow.privateKey == oldRow.privateKey {
        realPrivKey := Get(entries, oldRow.id).value.privateKey;
      }
      var info := newRow.(privateKey := realPrivKey);
      var oIndx := IndexOf(entries, oldRow.id);
      RemoveSorted(entries, oldRow.id);
      PutSorted(Remove(entries, oldRow.id), info);
      entries := Put(Remove(entries, oldRow.id), info);
      if newRow.id >= maxInfoRef {
        maxInfoRef := newRow.id + 1;
      }
      var nIndx := IndexOf(entries, newRow.id);
      if oIndx < nIndx {
        cloudIndex := cloudIndex - 1;
      }
      outcome := Ok;
    }

    /** deleteRow: the cursor steps back when the entry is at or before
        it, then the entry goes. */
    method DeleteRow(id: nat)
      requires Valid()
      modifies this`entries, this`cloudIndex
      ensures Valid() && entries == Remove(old(entries), id)
      ensures cloudIndex == old(cloudIndex) - (if IndexOf(old(entries), id) <= old(cloudIndex) then 1 else 0)
    {
      var indx := IndexOf(entries, id);
      if indx <= cloudIndex {
        cloudIndex := cloudIndex - 1;
      }
      RemoveSorted(entries, id);
      entries := Remove(entries, id);
    }
  }
}
