/** A client of the writer: the whole run from an empty buffer to a finished blob. */
module WriterSession {
  import opened Bytes
  import opened Format
  import opened Tree
  import opened Blob
  import opened Reserves
  import opened TokenLog
  import opened Writer
  import opened WriterLife
  import opened WriterFinish
  import opened Editor
  import R = Reader

  // ---------------------------------------------------------------- what a run needs

  /** The bytes that a call puts into the structure block. */
  function Cost(e: Entry): (n: nat)
    ensures n > 0
  {
    match e
    case Open(name) => 4 + Align4(|name| + 1)
    case Close => 4
    case Set(_, val) => 12 + Align4(|val|)
  }

  function Space(calls: seq<Entry>): (n: nat)
  {
    if calls == [] then 0 else Space(calls[..|calls| - 1]) + Cost(calls[|calls| - 1])
  }

  /** Whether a name goes into the strings: always without sharing, otherwise when it is not there yet. */
  predicate IsNew(pool: bytes, name: bytes, dedup: bool) { !dedup || R.FindStr(pool, name, 0).None? }

  /** The strings after the calls. */
  function NamePool(calls: seq<Entry>, dedup: bool): (pool: bytes)
  {
    if calls == [] then [] else
    var before := NamePool(calls[..|calls| - 1], dedup);
    var e := calls[|calls| - 1];
    if e.Set? && IsNew(before, e.name, dedup) then CStr(e.name) + before else before
  }

  /** The bytes of the buffer in use after the first `i` calls. */
  function Footprint(reserves: nat, calls: seq<Entry>, i: nat, dedup: bool): (n: nat)
    requires i <= |calls|
  {
    RSV_START + 16 * (reserves + 1) + Space(calls[..i]) + |NamePool(calls[..i], dedup)|
  }

  /** More calls take more room. */
  lemma {:induction false} FootprintGrows(reserves: nat, calls: seq<Entry>, i: nat, j: nat, dedup: bool)
    requires i <= j <= |calls|
    ensures Footprint(reserves, calls, i, dedup) <= Footprint(reserves, calls, j, dedup)
    decreases j
  {
    if i < j {
      FootprintStep(reserves, calls, j - 1, dedup);
      FootprintGrows(reserves, calls, i, j - 1, dedup);
    }
  }

  lemma FootprintStep(reserves: nat, calls: seq<Entry>, i: nat, dedup: bool)
    requires i < |calls|
    ensures var e, pool := calls[i], NamePool(calls[..i], dedup);
      && Footprint(reserves, calls, i + 1, dedup) == Footprint(reserves, calls, i, dedup) + Cost(e)
         + (if e.Set? && IsNew(pool, e.name, dedup) then |e.name| + 1 else 0)
      && NamePool(calls[..i + 1], dedup) == if e.Set? && IsNew(pool, e.name, dedup) then CStr(e.name) + pool else pool
  {
    hide Cost, IsNew;
    assert calls[..i + 1][..i] == calls[..i];
  }

  /** The condition of `GuardIs` for call number `i`, if the run comes that far: a name that is new is, together with
      the strings, no longer than the buffer. */
  predicate GuardHolds(size: int, reserves: nat, calls: seq<Entry>, i: nat, dedup: bool)
    requires i < |calls|
  {
    var pool := NamePool(calls[..i], dedup);
    calls[i].Set? && IsNew(pool, calls[i].name, dedup) && Footprint(reserves, calls, i, dedup) <= size ==>
      |pool| + |calls[i].name| + 1 <= size
  }

  predicate Guarded(size: int, reserves: nat, calls: seq<Entry>, dedup: bool)
  {
    forall i | 0 <= i < |calls| :: GuardHolds(size, reserves, calls, i, dedup)
  }

  /** Names shorter than the space that every buffer keeps for its header and reserve map never upset the guard. */
  lemma ShortNameIsSafe(size: int, reserves: nat, calls: seq<Entry>, i: nat, dedup: bool)
    requires i < |calls| && (calls[i].Set? ==> |calls[i].name| < RSV_START + 16)
    ensures GuardHolds(size, reserves, calls, i, dedup)
  {
    hide IsNew, Space;
  }

  /** What a client may pass: C strings, and values that an `int` can measure. */
  predicate Passable(e: Entry)
  {
    match e
    case Open(name) => NoNul(name) && |name| < INT_MAX
    case Close => true
    case Set(name, val) => NoNul(name) && |val| <= INT_MAX
  }

  // ---------------------------------------------------------------- one call

  /** Whether the call finds room. */
  predicate CallFits(b: bytes, e: Entry)
    requires Shape(b)
  {
    Cost(e) + (if e.Set? && NewName(b, e.name) then |e.name| + 1 else 0) <= Room(b)
  }

  method Perform(fdt: array<byte>, e: Entry) returns (err: int)
    requires Writing(fdt[..]) && Building(fdt[..]) && Passable(e)
    requires e.Set? && NewName(fdt[..], e.name) ==>
      Field(fdt[..], SIZE_STRINGS) + |e.name| + 1 <= Field(fdt[..], TOTALSIZE)
    modifies fdt
    ensures err == if CallFits(old(fdt[..]), e) then 0 else -ERR_NOSPACE
    ensures err == 0 ==> Writing(fdt[..])
    ensures err == 0 ==> DraftOf(fdt[..]) == old(DraftOf(fdt[..])).(log := old(DraftOf(fdt[..])).log + [e])
    ensures err == 0 ==>
      Stepped(old(fdt[..]), fdt[..], Cost(e), if e.Set? then AddedString(old(fdt[..]), e.name) else [])
  {
    hide Field, Scan, Resolved, Be, DraftOf, Stepped, NewName, AddedString;
    ProbeOpen(fdt[..]);
    match e
    case Open(name) => err := BeginNode(fdt, name);
    case Close => err := CloseNode(fdt);
    case Set(name, val) => err := Property(fdt, name, val);
  }

  lemma ProbeOpen(b: bytes)
    requires Writing(b) && Building(b)
    ensures ProbeStruct(b) == 0 && Callable(b)
  {
    hide Scan, Resolved, Be, Unword;
  }

  // ---------------------------------------------------------------- the whole run

  /** A blob after the first `i` calls. */
  ghost predicate Underway(b: bytes, size: int, reserves: seq<Reserve>, calls: seq<Entry>, i: nat, dedup: bool)
  {
    && i <= |calls| && Writing(b) && DraftOf(b) == Draft(reserves, true, calls[..i]) && Field(b, TOTALSIZE) == size
    && NoDedup(b) == !dedup && Pool(b) == NamePool(calls[..i], dedup)
    && Room(b) == size - Footprint(|reserves|, calls, i, dedup)
  }

  lemma UnderwayStart(b: bytes, b1: bytes, size: int, reserves: seq<Reserve>, calls: seq<Entry>, dedup: bool)
    requires Writing(b) && !Building(b) && Writing(b1) && DraftOf(b).reserves == reserves && Field(b, TOTALSIZE) == size
    requires DraftOf(b1) == Draft(reserves, true, []) && Field(b1, TOTALSIZE) == size && NoDedup(b1) == !dedup
    requires Pool(b1) == [] && Room(b1) == Room(b) - 16
    ensures Underway(b1, size, reserves, calls, 0, dedup)
  {
    hide Field, Scan, Resolved, Be;
    assert calls[..0] == [];
    assert |DraftOf(b).reserves| == Reserved(b);
  }

  lemma UnderwayNew(b: bytes, size: int, reserves: seq<Reserve>, calls: seq<Entry>, i: nat, dedup: bool)
    requires Underway(b, size, reserves, calls, i, dedup) && i < |calls|
    requires GuardHolds(size, |reserves|, calls, i, dedup)
    ensures Writing(b) && Building(b) && Shape(b)
    ensures var e := calls[i]; e.Set? ==> NewName(b, e.name) == IsNew(NamePool(calls[..i], dedup), e.name, dedup)
    ensures var e := calls[i];
      e.Set? && NewName(b, e.name) ==> Field(b, SIZE_STRINGS) + |e.name| + 1 <= Field(b, TOTALSIZE)
  {
    hide Field, Scan, Resolved, Be;
    assert DraftOf(b).building;
    assert |Pool(b)| == Field(b, SIZE_STRINGS);
  }

  lemma UnderwayNext(b: bytes, c: bytes, size: int, reserves: seq<Reserve>, calls: seq<Entry>, i: nat, dedup: bool)
    requires Underway(b, size, reserves, calls, i, dedup) && i < |calls|
    requires GuardHolds(size, |reserves|, calls, i, dedup)
    requires Writing(b) && Writing(c) && DraftOf(c) == DraftOf(b).(log := DraftOf(b).log + [calls[i]])
    requires Stepped(b, c, Cost(calls[i]), if calls[i].Set? then AddedString(b, calls[i].name) else [])
    ensures Underway(c, size, reserves, calls, i + 1, dedup)
  {
    hide Field, Scan, Resolved, Be, DraftOf, Cost, Footprint, NewName, IsNew, Pool, Room, NamePool;
    UnderwayNew(b, size, reserves, calls, i, dedup);
    FootprintStep(|reserves|, calls, i, dedup);
    assert calls[..i + 1] == calls[..i] + [calls[i]];
  }

  /** A call that does not fit belongs to a run that does not. */
  lemma UnderwayFull(b: bytes, size: int, reserves: seq<Reserve>, calls: seq<Entry>, i: nat, dedup: bool)
    requires Underway(b, size, reserves, calls, i, dedup) && i < |calls|
    requires GuardHolds(size, |reserves|, calls, i, dedup)
    requires Shape(b)
    ensures CallFits(b, calls[i]) || size < Footprint(|reserves|, calls, |calls|, dedup)
  {
    hide Field, Scan, Resolved, Be, DraftOf, Cost, Footprint, NewName, IsNew, Pool, Room, NamePool;
    UnderwayNew(b, size, reserves, calls, i, dedup);
    FootprintStep(|reserves|, calls, i, dedup);
    FootprintGrows(|reserves|, calls, i + 1, |calls|, dedup);
  }

  lemma EntryRoom(b: bytes, reserves: seq<Reserve>)
    requires Writing(b) && DraftOf(b) == Draft(reserves, false, [])
    ensures Room(b) == Field(b, TOTALSIZE) - RSV_START - 16 * |reserves| && !Building(b) && ProbeMemrsv(b) == 0
    ensures Callable(b)
  {
    hide Scan, Resolved, Be, Unword;
    assert |DraftOf(b).reserves| == Reserved(b);
  }

  /** The first half of a run: a new blob and its reserve map. */
  method Prepare(buf: array<byte>, bufsize: int, flags: int, reserves: seq<Reserve>, ghost calls: seq<Entry>)
    returns (err: int)
    requires bufsize <= buf.Length < TWO31 && 0 <= flags < TWO32
    requires forall i | 0 <= i < |reserves| :: Fits64(reserves[i])
    modifies buf
    ensures err == if bufsize < RSV_START then -ERR_NOSPACE else if flags > 1 then -ERR_BADFLAGS
                   else if RSV_START + 16 * (|reserves| + 1) <= bufsize then 0 else -ERR_NOSPACE
    ensures err == 0 ==> Underway(buf[..], bufsize, reserves, calls, 0, flags == 0)
  {
    hide Field, Scan, Resolved, Be, DraftOf, Room;
    err := CreateWithFlags(buf, bufsize, flags);
    if err != 0 {
      return;
    }
    var i := 0;
    while i < |reserves|
      invariant 0 <= i <= |reserves| && Writing(buf[..]) && DraftOf(buf[..]) == Draft(reserves[..i], false, [])
      invariant Field(buf[..], TOTALSIZE) == bufsize && (NoDedup(buf[..]) <==> flags == 1)
    {
      EntryRoom(buf[..], reserves[..i]);
      err := AddReservemapEntry(buf, reserves[i].address, reserves[i].size);
      if err != 0 {
        return;
      }
      assert reserves[..i + 1] == reserves[..i] + [reserves[i]];
      i := i + 1;
    }
    assert reserves[..i] == reserves;
    ghost var b := buf[..];
    EntryRoom(b, reserves);
    err := FinishReservemap(buf);
    if err == 0 {
      DraftParts(b, buf[..], reserves);
      UnderwayStart(b, buf[..], bufsize, reserves, calls, flags == 0);
    }
  }

  lemma DraftParts(b: bytes, c: bytes, reserves: seq<Reserve>)
    requires Writing(b) && DraftOf(b) == Draft(reserves, false, []) && Writing(c)
    requires DraftOf(c) == DraftOf(b).(building := true)
    ensures DraftOf(b).reserves == reserves && DraftOf(c) == Draft(reserves, true, [])
  {
  }

  /** The whole run succeeds exactly if it fits into the buffer.  Then reading the blob back gives exactly what was
      written: that is a tree precisely when the calls were well nested, and then it is the tree they spell; and the
      reserve map is the list of entries passed, up to the first of size 0. */
  method Session(buf: array<byte>, bufsize: int, flags: int, reserves: seq<Reserve>, calls: seq<Entry>)
    returns (err: int)
    requires bufsize <= buf.Length < TWO31 && 0 <= flags < TWO32
    requires (forall i | 0 <= i < |reserves| :: Fits64(reserves[i]))
    requires forall i | 0 <= i < |calls| :: Passable(calls[i])
    requires Guarded(bufsize, |reserves|, calls, flags == 0)
    modifies buf
    ensures err == if bufsize < RSV_START then -ERR_NOSPACE else if flags > 1 then -ERR_BADFLAGS
                   else if Footprint(|reserves|, calls, |calls|, flags == 0) + 4 <= bufsize then 0 else -ERR_NOSPACE
    ensures err == 0 ==>
      && Sane(buf[..])
      && (forall a :: TreeOf(buf[..]) == Some(a) <==> calls == Script(a))
      && ReserveList(buf[..]) == Some(UpToEmpty(reserves))
  {
    hide Field, Scan, Resolved, Be, DraftOf, Passable, TreeOf, Written, Pool, ReserveList, Underway, Room, GuardHolds,
         CallFits, Footprint, Stepped, AddedString, NewName;
    FootprintGrows(|reserves|, calls, 0, |calls|, flags == 0);
    FootprintNone(|reserves|, calls, flags == 0);
    err := Prepare(buf, bufsize, flags, reserves, calls);
    if err != 0 {
      return;
    }
    var i := 0;
    while i < |calls|
      invariant 0 <= i <= |calls| && Underway(buf[..], bufsize, reserves, calls, i, flags == 0)
    {
      ghost var b := buf[..];
      UnderwayNew(b, bufsize, reserves, calls, i, flags == 0);
      UnderwayFull(b, bufsize, reserves, calls, i, flags == 0);
      err := Perform(buf, calls[i]);
      if err != 0 {
        return;
      }
      UnderwayNext(b, buf[..], bufsize, reserves, calls, i, flags == 0);
      i := i + 1;
    }
    UnderwayEnd(buf[..], bufsize, reserves, calls, flags == 0);
    err := Finish(buf);
  }

  lemma FootprintNone(reserves: nat, calls: seq<Entry>, dedup: bool)
    ensures Footprint(reserves, calls, 0, dedup) == RSV_START + 16 * (reserves + 1)
  {
  }

  lemma UnderwayEnd(b: bytes, size: int, reserves: seq<Reserve>, calls: seq<Entry>, dedup: bool)
    requires Underway(b, size, reserves, calls, |calls|, dedup)
    ensures Writing(b) && Building(b) && DraftOf(b) == Draft(reserves, true, calls) && ProbeStruct(b) == 0
    ensures Callable(b)
    ensures Room(b) == size - Footprint(|reserves|, calls, |calls|, dedup)
  {
    hide Field, Scan, Resolved, Be, Footprint;
    assert calls[..|calls|] == calls;
    assert DraftOf(b).building;
    ProbeOpen(b);
  }
}
