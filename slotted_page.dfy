/** The slotted page.

    A page is PAGE_SIZE bytes.  Its first METADATA_SIZE bytes hold a directory
    of MAX_SLOTS descriptors `{empty, offset, length}`; records are stored
    after it.  A slot is unassigned while its offset is INVALID.  addTuple
    places a serialized tuple in the first empty slot that is long enough: a
    reused slot keeps its offset and reserved length, a fresh slot starts
    where the previous slot ends (slot 0 at METADATA_SIZE) and takes the
    record's size as its length.  A placement that would reach the end of
    the page is undone.  deleteTuple only marks a slot empty.

    The model keeps the directory and the record bytes in two arrays; the
    directory's own bytes at the head of the page are not modelled. */
module Page {
  import opened Common
  import opened Wire

  const PAGE_SIZE: nat := 4096
  const MAX_SLOTS: nat := 512
  /** sizeof(Slot) * MAX_SLOTS: a Slot is a bool and two uint16, 6 bytes with padding. */
  const METADATA_SIZE: nat := 3072

  datatype Slot = Slot(empty: bool, offset: Uint16, length: Uint16)

  /** The descriptor every slot starts with. */
  const UNASSIGNED: Slot := Slot(true, INVALID, INVALID)

  /** The test of addTuple's first-fit scan. */
  predicate Fits(s: Slot, size: nat) {
    s.empty && s.length >= size
  }

  /** One past the last byte a slot reserves. */
  function End(s: Slot): nat {
    s.offset + s.length
  }

  // ---------------------------------------------------------------- directory

  /** The layout every page keeps: the first `n` slots are assigned, back to
      back from METADATA_SIZE and inside the page; the others are unassigned. */
  predicate ValidDir(dir: seq<Slot>, n: nat) {
    |dir| == MAX_SLOTS && n <= MAX_SLOTS &&
    (n > 0 ==> dir[0].offset == METADATA_SIZE) &&
    (forall i :: 0 < i < n ==> dir[i].offset == End(dir[i - 1])) &&
    (forall i :: 0 <= i < n ==> End(dir[i]) < PAGE_SIZE) &&
    (forall i :: n <= i < |dir| ==> dir[i] == UNASSIGNED)
  }

  /** The first slot from `from` on that is empty and long enough, or |dir|
      when there is none. */
  function FirstFit(dir: seq<Slot>, size: nat, from: nat): (k: nat)
    requires from <= |dir|
    ensures from <= k <= |dir|
    ensures k < |dir| ==> Fits(dir[k], size)
    ensures forall j :: from <= j < k ==> !Fits(dir[j], size)
    decreases |dir| - from
  {
    if from == |dir| then from
    else if Fits(dir[from], size) then from
    else FirstFit(dir, size, from + 1)
  }

  /** The offset addTuple computes for slot k: its own when assigned, else
      the end of the previous slot, or METADATA_SIZE for slot 0. */
  function StartOf(dir: seq<Slot>, k: nat): nat
    requires k < |dir|
  {
    if dir[k].offset != INVALID then dir[k].offset
    else if k == 0 then METADATA_SIZE
    else End(dir[k - 1])
  }

  /** The outcome of addTuple's search: no slot fits, the chosen slot would
      overrun the page, or the record goes to `slot` at `offset`. */
  datatype Placement = NoSlot | TooBig(slot: nat) | Placed(slot: nat, offset: nat)

  function Place(dir: seq<Slot>, size: nat): Placement {
    var k := FirstFit(dir, size, 0);
    if k == |dir| then NoSlot
    else if StartOf(dir, k) + size >= PAGE_SIZE then TooBig(k)
    else Placed(k, StartOf(dir, k))
  }

  /** The directory after addTuple of a record of `size` bytes. */
  function AfterAdd(dir: seq<Slot>, size: nat): (r: seq<Slot>)
    ensures |r| == |dir|
  {
    match Place(dir, size)
    case NoSlot => dir
    case TooBig(k) => dir[k := Slot(true, INVALID, dir[k].length)]
    case Placed(k, off) =>
      dir[k := Slot(false, off, if dir[k].length == INVALID then size else dir[k].length)]
  }

  /** The directory after deleteTuple(index). */
  function AfterDelete(dir: seq<Slot>, index: nat): (r: seq<Slot>)
    ensures |r| == |dir|
  {
    if index < |dir| && !dir[index].empty then dir[index := dir[index].(empty := true)] else dir
  }

  /** The number of assigned slots after addTuple. */
  function AssignedAfterAdd(dir: seq<Slot>, n: nat, size: nat): nat {
    var p := Place(dir, size);
    if p.Placed? && p.slot == n then n + 1 else n
  }

  lemma {:induction false} OffsetsFromMetadata(dir: seq<Slot>, n: nat, k: nat)
    requires ValidDir(dir, n) && k < n
    ensures METADATA_SIZE <= dir[k].offset
    decreases k
  {
    if k > 0 {
      OffsetsFromMetadata(dir, n, k - 1);
    }
  }

  /** Assigned slots do not overlap: an earlier slot ends before a later one starts. */
  lemma {:induction false} EndsBefore(dir: seq<Slot>, n: nat, j: nat, k: nat)
    requires ValidDir(dir, n) && j < k < n
    ensures End(dir[j]) <= dir[k].offset
    decreases k - j
  {
    if j + 1 < k {
      EndsBefore(dir, n, j, k - 1);
    }
  }

  /** What addTuple's search finds on a page with a valid directory: the first
      fitting slot, which is either an assigned slot (kept where it is, and
      always large enough) or the first unassigned one (placed right after
      its predecessor); a rejected placement leaves the directory as it was. */
  lemma PlaceFacts(dir: seq<Slot>, n: nat, size: nat)
    requires ValidDir(dir, n)
    ensures Place(dir, size).NoSlot? <==> forall j :: 0 <= j < |dir| ==> !Fits(dir[j], size)
    ensures !Place(dir, size).NoSlot? ==> Place(dir, size).slot <= n
    ensures Place(dir, size).TooBig? ==> Place(dir, size).slot == n
    ensures Place(dir, size).Placed? ==>
      var k, off := Place(dir, size).slot, Place(dir, size).offset;
      k < |dir| && Fits(dir[k], size) && (forall j :: 0 <= j < k ==> !Fits(dir[j], size)) &&
      METADATA_SIZE <= off && off + size < PAGE_SIZE &&
      (k < n ==> off == dir[k].offset) &&
      (k == n ==> off == if k == 0 then METADATA_SIZE else End(dir[k - 1]))
    ensures !Place(dir, size).Placed? ==> AfterAdd(dir, size) == dir
  {
    var k := FirstFit(dir, size, 0);
    if k < |dir| {
      assert n < |dir| ==> dir[n] == UNASSIGNED;
      if k < n {
        OffsetsFromMetadata(dir, n, k);
        assert StartOf(dir, k) == dir[k].offset;
      } else if k > 0 {
        OffsetsFromMetadata(dir, n, k - 1);
      }
      if Place(dir, size).TooBig? {
        assert dir[k].offset == INVALID;
        assert dir[k := Slot(true, INVALID, dir[k].length)] == dir;
      }
    }
  }

  /** A directory with the same offsets and lengths as a valid one, and the
      same unassigned slots, is valid too. */
  lemma SameLayout(dir: seq<Slot>, r: seq<Slot>, n: nat)
    requires ValidDir(dir, n) && |r| == |dir|
    requires forall i :: 0 <= i < n ==> r[i].offset == dir[i].offset && r[i].length == dir[i].length
    requires forall i :: n <= i < |dir| ==> r[i] == dir[i]
    ensures ValidDir(r, n)
  {
    forall i | 0 < i < n ensures r[i].offset == End(r[i - 1]) {
      assert r[i - 1].offset == dir[i - 1].offset && r[i - 1].length == dir[i - 1].length;
    }
  }

  /** Placing a record in the first unassigned slot extends the assigned prefix. */
  lemma FreshSlotLayout(dir: seq<Slot>, n: nat, off: nat, size: nat)
    requires ValidDir(dir, n) && n < |dir|
    requires off == if n == 0 then METADATA_SIZE else End(dir[n - 1])
    requires off + size < PAGE_SIZE
    ensures ValidDir(dir[n := Slot(false, off, size)], n + 1)
  {
    var r := dir[n := Slot(false, off, size)];
    forall i | 0 < i < n + 1 ensures r[i].offset == End(r[i - 1]) {
      if i < n {
        assert r[i] == dir[i] && r[i - 1] == dir[i - 1];
      } else {
        assert r[i - 1] == dir[i - 1];
      }
    }
    forall i | 0 <= i < n + 1 ensures End(r[i]) < PAGE_SIZE {
      if i < n { assert r[i] == dir[i]; }
    }
    forall i | n + 1 <= i < |r| ensures r[i] == UNASSIGNED {
      assert r[i] == dir[i];
    }
  }

  /** addTuple keeps the directory layout, assigns at most one more slot, and
      never moves or resizes an assigned slot. */
  lemma AddKeepsLayout(dir: seq<Slot>, n: nat, size: nat)
    requires ValidDir(dir, n)
    ensures ValidDir(AfterAdd(dir, size), AssignedAfterAdd(dir, n, size))
    ensures forall j :: 0 <= j < n ==>
      AfterAdd(dir, size)[j].offset == dir[j].offset && AfterAdd(dir, size)[j].length == dir[j].length
    ensures forall j :: 0 <= j < |dir| && (!Place(dir, size).Placed? || j != Place(dir, size).slot) ==>
      AfterAdd(dir, size)[j] == dir[j]
  {
    PlaceFacts(dir, n, size);
    var p := Place(dir, size);
    if p.Placed? {
      var k, off := p.slot, p.offset;
      var r := AfterAdd(dir, size);
      if k == n {
        assert r == dir[n := Slot(false, off, size)];
        FreshSlotLayout(dir, n, off, size);
      } else {
        assert r == dir[k := Slot(false, dir[k].offset, dir[k].length)];
        SameLayout(dir, r, n);
      }
    }
  }

  /** deleteTuple keeps the layout and every offset and length; it only
      clears the occupied flag of `index`, and does nothing when `index` is
      out of range or already empty. */
  lemma DeleteKeepsLayout(dir: seq<Slot>, n: nat, index: nat)
    requires ValidDir(dir, n)
    ensures ValidDir(AfterDelete(dir, index), n)
    ensures forall j :: 0 <= j < |dir| ==>
      AfterDelete(dir, index)[j].offset == dir[j].offset &&
      AfterDelete(dir, index)[j].length == dir[j].length &&
      AfterDelete(dir, index)[j].empty == (dir[j].empty || j == index)
    ensures index >= |dir| || dir[index].empty ==> AfterDelete(dir, index) == dir
  {
    SameLayout(dir, AfterDelete(dir, index), n);
  }

  // ---------------------------------------------------------------- records

  /** `bytes` copied over `d` at `off`, as memcpy does. */
  function Written(d: seq<char>, off: nat, bytes: seq<char>): (r: seq<char>)
    requires off + |bytes| <= |d|
    ensures |r| == |d|
    ensures r[off..off + |bytes|] == bytes
  {
    d[..off] + bytes + d[off + |bytes|..]
  }

  lemma WrittenOutside(d: seq<char>, off: nat, bytes: seq<char>, a: nat, b: nat)
    requires off + |bytes| <= |d| && a <= b <= |d|
    requires b <= off || off + |bytes| <= a
    ensures Written(d, off, bytes)[a..b] == d[a..b]
  {
    var r := Written(d, off, bytes);
    forall i | a <= i < b ensures r[i] == d[i] {
      if i < off {
        assert r[i] == d[..off][i];
      } else {
        assert r[i] == d[off + |bytes|..][i - off - |bytes|];
      }
    }
  }

  /** Slot `s` holds the text of tuple `t` inside its reserved bytes. */
  predicate Holds(d: seq<char>, s: Slot, t: Tuple) {
    var text := SerializeTuple(t);
    |text| <= s.length && s.offset + |text| <= |d| && d[s.offset..s.offset + |text|] == text
  }

  /** The occupied slots are exactly those recorded in `st`, and each of them
      holds its tuple's text. */
  predicate Consistent(dir: seq<Slot>, d: seq<char>, st: map<nat, Tuple>) {
    (forall k :: 0 <= k < |dir| ==> (!dir[k].empty <==> k in st)) &&
    (forall k :: k in st ==> k < |dir| && Holds(d, dir[k], st[k]))
  }

  /** The bytes a placed record takes do not meet any other assigned slot. */
  lemma PlacementDisjoint(dir: seq<Slot>, n: nat, size: nat, j: nat)
    requires ValidDir(dir, n) && Place(dir, size).Placed?
    requires j < n && j != Place(dir, size).slot
    ensures End(dir[j]) <= Place(dir, size).offset || Place(dir, size).offset + size <= dir[j].offset
  {
    PlaceFacts(dir, n, size);
    var k := Place(dir, size).slot;
    if j < k {
      if k < n {
        EndsBefore(dir, n, j, k);
      } else if j < k - 1 {
        EndsBefore(dir, n, j, k - 1);
      }
    } else {
      EndsBefore(dir, n, k, j);
    }
  }

  /** A record survives a write that does not meet its slot. */
  lemma HoldsOutside(d: seq<char>, s: Slot, t: Tuple, off: nat, bytes: seq<char>)
    requires Holds(d, s, t) && off + |bytes| <= |d|
    requires End(s) <= off || off + |bytes| <= s.offset
    ensures Holds(Written(d, off, bytes), s, t)
  {
    WrittenOutside(d, off, bytes, s.offset, s.offset + |SerializeTuple(t)|);
  }

  /** A successful addTuple keeps every stored record and adds the new one. */
  lemma AddKeepsRecords(dir: seq<Slot>, n: nat, d: seq<char>, st: map<nat, Tuple>, t: Tuple)
    requires ValidDir(dir, n) && |d| == PAGE_SIZE && Consistent(dir, d, st)
    requires Place(dir, |SerializeTuple(t)|).Placed?
    ensures Place(dir, |SerializeTuple(t)|).offset + |SerializeTuple(t)| <= |d|
    ensures Consistent(AfterAdd(dir, |SerializeTuple(t)|),
                       Written(d, Place(dir, |SerializeTuple(t)|).offset, SerializeTuple(t)),
                       st[Place(dir, |SerializeTuple(t)|).slot := t])
  {
    var text := SerializeTuple(t);
    var size := |text|;
    PlaceFacts(dir, n, size);
    AddKeepsLayout(dir, n, size);
    var k, off := Place(dir, size).slot, Place(dir, size).offset;
    var r := AfterAdd(dir, size);
    var d' := Written(d, off, text);
    var st' := st[k := t];
    assert r[k] == Slot(false, off, if dir[k].length == INVALID then size else dir[k].length);
    assert Holds(d', r[k], t);
    forall j | j in st' && j != k ensures j < |r| && Holds(d', r[j], st'[j]) {
      assert j in st && r[j] == dir[j] && st'[j] == st[j];
      PlacementDisjoint(dir, n, size, j);
      HoldsOutside(d, dir[j], st[j], off, text);
    }
    forall j | 0 <= j < |r| ensures !r[j].empty <==> j in st' {
      if j != k { assert r[j] == dir[j]; }
    }
  }

  /** deleteTuple forgets the deleted record and keeps the others. */
  lemma DeleteKeepsRecords(dir: seq<Slot>, d: seq<char>, st: map<nat, Tuple>, index: nat)
    requires Consistent(dir, d, st)
    ensures Consistent(AfterDelete(dir, index), d, st - {index})
  {
  }

  // ---------------------------------------------------------------- listing

  /** The occupied slots below k, in index order: the slots print shows. */
  function OccupiedBelow(dir: seq<Slot>, k: nat): (r: seq<nat>)
    requires k <= |dir|
    ensures forall i :: i in r <==> 0 <= i < k && !dir[i].empty
    ensures forall a :: 0 <= a < |r| ==> r[a] < k && !dir[r[a]].empty
    ensures forall a, b :: 0 <= a < b < |r| ==> r[a] < r[b]
    decreases k
  {
    if k == 0 then []
    else
      var below := OccupiedBelow(dir, k - 1);
      if dir[k - 1].empty then below
      else
        assert forall a :: 0 <= a < |below| ==> below[a] < k - 1 by {
          forall a | 0 <= a < |below| ensures below[a] < k - 1 { assert below[a] in below; }
        }
        below + [k - 1]
  }

  lemma OccupiedStep(dir: seq<Slot>, k: nat)
    requires 0 < k <= |dir|
    ensures OccupiedBelow(dir, k) ==
      if dir[k - 1].empty then OccupiedBelow(dir, k - 1) else OccupiedBelow(dir, k - 1) + [k - 1]
  {
  }

  /** One line of print: the slot, its offset, and the text that starts
      there, up to the first NUL, which print hands to Tuple::deserialize. */
  datatype Line = Line(slot: nat, offset: Uint16, text: string)

  function ShowSlot(dir: seq<Slot>, d: seq<char>, k: nat): Line
    requires k < |dir| && dir[k].offset <= |d|
  {
    Line(k, dir[k].offset, CString(d[dir[k].offset..]))
  }

  /** The tuple print shows on a line. */
  function Record(l: Line): Result<(seq<Option<Field>>, string)> {
    DeserializeTuple(l.text)
  }

  /** Occupied slots lie inside the page. */
  predicate Printable(dir: seq<Slot>, d: seq<char>) {
    forall k :: 0 <= k < |dir| && !dir[k].empty ==> dir[k].offset <= |d|
  }

  /** print's scan: the lines for the occupied slots below k. */
  function ListingBelow(dir: seq<Slot>, d: seq<char>, k: nat): seq<Line>
    requires k <= |dir| && Printable(dir, d)
    decreases k
  {
    if k == 0 then []
    else if dir[k - 1].empty then ListingBelow(dir, d, k - 1)
    else ListingBelow(dir, d, k - 1) + [ShowSlot(dir, d, k - 1)]
  }

  /** The scan has one line per occupied slot. */
  lemma {:induction false} ListingLength(dir: seq<Slot>, d: seq<char>, k: nat)
    requires k <= |dir| && Printable(dir, d)
    ensures |ListingBelow(dir, d, k)| == |OccupiedBelow(dir, k)|
    decreases k
  {
    if k > 0 {
      ListingLength(dir, d, k - 1);
      OccupiedStep(dir, k);
    }
  }

  /** The i-th line of the scan shows the i-th occupied slot. */
  lemma {:induction false} ListingAt(dir: seq<Slot>, d: seq<char>, k: nat, i: nat)
    requires k <= |dir| && Printable(dir, d)
    requires i < |OccupiedBelow(dir, k)|
    ensures i < |ListingBelow(dir, d, k)|
    ensures ListingBelow(dir, d, k)[i] == ShowSlot(dir, d, OccupiedBelow(dir, k)[i])
    decreases k
  {
    ListingLength(dir, d, k);
    OccupiedStep(dir, k);
    var below := OccupiedBelow(dir, k - 1);
    if i < |below| {
      ListingAt(dir, d, k - 1, i);
      ListingLength(dir, d, k - 1);
    }
  }

  lemma ValidIsPrintable(dir: seq<Slot>, n: nat, d: seq<char>)
    requires ValidDir(dir, n) && |d| == PAGE_SIZE
    ensures Printable(dir, d)
  {
  }

  lemma SliceSplit(d: seq<char>, i: nat, j: nat)
    requires i <= j <= |d|
    ensures d[i..] == d[i..j] + d[j..]
  {
    assert d[i..] == d[i..j] + d[j..];
  }

  /** Reading from a slot that holds a tuple stops right after the tuple's
      text, which has no NUL in it. */
  lemma SlotText(d: seq<char>, s: Slot, t: Tuple)
    requires Holds(d, s, t)
    ensures s.offset + |SerializeTuple(t)| <= |d|
    ensures CString(d[s.offset..]) == SerializeTuple(t) + CString(d[s.offset + |SerializeTuple(t)|..])
  {
    var text := SerializeTuple(t);
    SliceSplit(d, s.offset, s.offset + |text|);
    TupleTextNoNul(t);
    CStringAppend(text, d[s.offset + |text|..]);
  }

  lemma FieldCountBound(t: Tuple)
    ensures |t.fields| < |SerializeTuple(t)|
  {
    FieldsTextLength(t.fields);
  }

  /** The text read from a slot that holds a tuple gives back the tuple's
      fields, whatever bytes follow the record. */
  lemma SlotReadsBack(d: seq<char>, s: Slot, t: Tuple)
    requires Holds(d, s, t) && AllPortable(t.fields)
    ensures s.offset <= |d|
    ensures DeserializeTuple(CString(d[s.offset..])).Ok?
    ensures DeserializeTuple(CString(d[s.offset..])).value.0 == Lift(t.fields)
  {
    SlotText(d, s, t);
    FieldCountBound(t);
    TupleRoundTrip(t, CString(d[s.offset + |SerializeTuple(t)|..]));
  }

  /** print shows, for each occupied slot, the fields of the tuple stored in
      it, provided they survive the text format. */
  lemma PrintShowsRecords(dir: seq<Slot>, n: nat, d: seq<char>, st: map<nat, Tuple>, k: nat)
    requires PageState(dir, d, n, st)
    requires k in st && AllPortable(st[k].fields)
    ensures k in OccupiedBelow(dir, |dir|)
    ensures Printable(dir, d)
    ensures Record(ShowSlot(dir, d, k)).Ok?
    ensures Record(ShowSlot(dir, d, k)).value.0 == Lift(st[k].fields)
  {
    ValidIsPrintable(dir, n, d);
    SlotReadsBack(d, dir[k], st[k]);
  }

  lemma FirstFitIs(dir: seq<Slot>, size: nat, k: nat)
    requires k <= |dir| && (k < |dir| ==> Fits(dir[k], size))
    requires forall j :: 0 <= j < k ==> !Fits(dir[j], size)
    ensures k == FirstFit(dir, size, 0)
  {
  }

  /** A placement that would overrun the page leaves the directory as it was. */
  lemma TooBigKeeps(dir: seq<Slot>, n: nat, size: nat)
    requires ValidDir(dir, n) && Place(dir, size).TooBig?
    ensures dir[Place(dir, size).slot] == Slot(true, INVALID, dir[Place(dir, size).slot].length)
  {
    PlaceFacts(dir, n, size);
  }

  /** A successful addTuple keeps the page valid. */
  lemma AddKeeps(dir: seq<Slot>, n: nat, d: seq<char>, st: map<nat, Tuple>, t: Tuple)
    requires PageState(dir, d, n, st)
    requires Place(dir, |SerializeTuple(t)|).Placed?
    ensures Place(dir, |SerializeTuple(t)|).offset + |SerializeTuple(t)| <= |d|
    ensures PageState(AfterAdd(dir, |SerializeTuple(t)|),
                      Written(d, Place(dir, |SerializeTuple(t)|).offset, SerializeTuple(t)),
                      AssignedAfterAdd(dir, n, |SerializeTuple(t)|),
                      st[Place(dir, |SerializeTuple(t)|).slot := t])
  {
    AddKeepsLayout(dir, n, |SerializeTuple(t)|);
    AddKeepsRecords(dir, n, d, st, t);
  }

  // ---------------------------------------------------------------- the page

  /** The invariant of a page: a valid directory whose occupied slots hold
      the records of `st`. */
  predicate PageState(dir: seq<Slot>, d: seq<char>, n: nat, st: map<nat, Tuple>) {
    ValidDir(dir, n) && |d| == PAGE_SIZE && Consistent(dir, d, st)
  }

  /** memcpy of `bytes` into `data` at `off`. */
  method CopyInto(data: array<char>, off: nat, bytes: seq<char>)
    requires off + |bytes| <= data.Length
    modifies data
    ensures data[..] == Written(old(data[..]), off, bytes)
  {
    ghost var d := data[..];
    forall i | 0 <= i < |bytes| {
      data[off + i] := bytes[i];
    }
    forall i | 0 <= i < data.Length ensures data[i] == Written(d, off, bytes)[i] {
      if i < off {
        assert Written(d, off, bytes)[i] == d[..off][i];
      } else if i < off + |bytes| {
        assert Written(d, off, bytes)[i] == bytes[i - off];
        assert data[off + (i - off)] == bytes[i - off];
      } else {
        assert Written(d, off, bytes)[i] == d[off + |bytes|..][i - off - |bytes|];
      }
    }
  }

  class SlottedPage {
    var slots: array<Slot>
    var data: array<char>
    /** The number of assigned slots. */
    ghost var numAssigned: nat
    /** The tuple held by each occupied slot. */
    ghost var stored: map<nat, Tuple>

    ghost predicate Valid()
      reads this, slots, data
    {
      slots.Length == MAX_SLOTS && data.Length == PAGE_SIZE &&
      PageState(slots[..], data[..], numAssigned, stored)
    }

    /** A new page: every slot unassigned, every byte zero. */
    constructor ()
      ensures Valid() && fresh(slots) && fresh(data)
      ensures forall k :: 0 <= k < MAX_SLOTS ==> slots[k] == UNASSIGNED
      ensures numAssigned == 0 && stored == map[]
    {
      var dir := new Slot[MAX_SLOTS];
      var i: nat := 0;
      while i < MAX_SLOTS
        invariant 0 <= i <= MAX_SLOTS
        invariant forall k :: 0 <= k < i ==> dir[k] == UNASSIGNED
      {
        dir[i] := UNASSIGNED;
        i := i + 1;
      }
      slots := dir;
      data := new char[PAGE_SIZE](_ => '\0');
      numAssigned := 0;
      stored := map[];
    }

    /** addTuple's first-fit scan over the slot directory. */
    method FindSlot(size: nat) returns (k: nat)
      requires slots.Length == MAX_SLOTS
      ensures k == FirstFit(slots[..], size, 0)
    {
      k := 0;
      while k < MAX_SLOTS && !(slots[k].empty && slots[k].length >= size)
        invariant 0 <= k <= MAX_SLOTS
        invariant forall j :: 0 <= j < k ==> !Fits(slots[j], size)
      {
        k := k + 1;
      }
      FirstFitIs(slots[..], size, k);
    }

    /** SlottedPage::addTuple. */
    method AddTuple(t: Tuple) returns (ok: bool)
      requires Valid()
      modifies this, slots, data
      ensures Valid() && slots == old(slots) && data == old(data)
      ensures slots[..] == AfterAdd(old(slots[..]), |SerializeTuple(t)|)
      ensures ok == Place(old(slots[..]), |SerializeTuple(t)|).Placed?
      ensures ok ==> data[..] == Written(old(data[..]), Place(old(slots[..]), |SerializeTuple(t)|).offset, SerializeTuple(t))
      ensures ok ==> stored == old(stored)[Place(old(slots[..]), |SerializeTuple(t)|).slot := t]
      ensures !ok ==> data[..] == old(data[..]) && stored == old(stored)
      ensures numAssigned == AssignedAfterAdd(old(slots[..]), old(numAssigned), |SerializeTuple(t)|)
    {
      var bytes := SerializeTuple(t);
      var size := |bytes|;
      ghost var dir := slots[..];
      var k := FindSlot(size);
      if k == MAX_SLOTS {
        return false;
      }
      var off: nat;
      if slots[k].offset == INVALID {
        if k != 0 {
          off := slots[k - 1].offset + slots[k - 1].length;
        } else {
          off := METADATA_SIZE;
        }
      } else {
        off := slots[k].offset;
      }
      assert off == StartOf(dir, k);
      if off + size >= PAGE_SIZE {
        ResetSlot(k, size);
        return false;
      }
      PlaceRecord(k, off, t, bytes);
      ok := true;
    }

    /** The overflow path of addTuple: slot k is marked empty again and
        loses its offset, which leaves the directory as it was. */
    method ResetSlot(k: nat, ghost size: nat)
      requires Valid() && Place(slots[..], size) == TooBig(k)
      modifies slots
      ensures Valid() && slots[..] == AfterAdd(old(slots[..]), size) && slots[..] == old(slots[..])
    {
      TooBigKeeps(slots[..], numAssigned, size);
      slots[k] := Slot(true, INVALID, slots[k].length);
      assert slots[..] == old(slots[..]);
    }

    /** The successful path of addTuple: slot k is taken at offset off and
        the serialized record is copied there. */
    method PlaceRecord(k: nat, off: nat, t: Tuple, bytes: seq<char>)
      requires Valid() && bytes == SerializeTuple(t) && Place(slots[..], |bytes|) == Placed(k, off)
      modifies this, slots, data
      ensures Valid() && slots == old(slots) && data == old(data)
      ensures slots[..] == AfterAdd(old(slots[..]), |bytes|)
      ensures data[..] == Written(old(data[..]), off, bytes)
      ensures numAssigned == AssignedAfterAdd(old(slots[..]), old(numAssigned), |bytes|)
      ensures stored == old(stored)[k := t]
    {
      ghost var dir := slots[..];
      var len := if slots[k].length == INVALID then |bytes| else slots[k].length;
      ghost var n', st' := AssignedAfterAdd(dir, numAssigned, |bytes|), stored[k := t];
      AddKeeps(dir, numAssigned, data[..], stored, t);
      slots[k] := Slot(false, off, len);
      assert slots[..] == AfterAdd(dir, |bytes|);
      CopyInto(data, off, bytes);
      numAssigned, stored := n', st';
    }

    /** SlottedPage::deleteTuple. */
    method DeleteTuple(index: nat)
      requires Valid()
      modifies this, slots
      ensures Valid() && slots == old(slots) && data[..] == old(data[..])
      ensures slots[..] == AfterDelete(old(slots[..]), index)
      ensures numAssigned == old(numAssigned) && stored == old(stored) - {index}
    {
      ghost var dir := slots[..];
      DeleteKeepsLayout(dir, numAssigned, index);
      DeleteKeepsRecords(dir, data[..], stored, index);
      var k: nat := 0;
      while k < MAX_SLOTS
        invariant 0 <= k <= MAX_SLOTS
        invariant slots[..] == dir
        invariant forall j :: 0 <= j < k ==> !(j == index && !dir[j].empty)
      {
        if k == index && !slots[k].empty {
          slots[k] := slots[k].(empty := true);
          break;
        }
        k := k + 1;
      }
      stored := stored - {index};
    }

    /** SlottedPage::print: one line per occupied slot, in slot order. */
    method Print() returns (lines: seq<Line>)
      requires Valid()
      ensures Printable(slots[..], data[..])
      ensures lines == ListingBelow(slots[..], data[..], MAX_SLOTS)
    {
      ValidIsPrintable(slots[..], numAssigned, data[..]);
      lines := [];
      var k: nat := 0;
      while k < MAX_SLOTS
        invariant 0 <= k <= MAX_SLOTS
        invariant lines == ListingBelow(slots[..], data[..], k)
      {
        if !slots[k].empty {
          lines := lines + [ShowSlot(slots[..], data[..], k)];
        }
        k := k + 1;
      }
    }
  }
}
