/** c/libelf/begin.c and end.c: descriptors for files, archives and archive members. A member
    shares its archive's memory, so it holds a reference to it; the open members of an archive
    are linked in a list. Memory is a map from pointers to structures: what is not in the map
    is not allocated. */
module ElfDescriptors {
  type Ptr = nat
  const NULL: Ptr := 0
  const AR_HDR := 60  // size of an archive member header
  const SARMAG := 8   // where the first member header starts

  /** Access rights and file of a descriptor. */
  datatype Access = Access(readable: bool, writable: bool, memory: bool, fd: int)

  datatype Elf = Elf(
    count: nat, parent: Ptr, members: Ptr, link: Ptr, base: nat, archive: bool, off: nat, access: Access)
  type Heap = map<Ptr, Elf>

  /** What the structures mean: how many handles the caller holds, the list behind `members`,
      and how deep the descriptor is nested. */
  datatype Info = Info(held: nat, kids: seq<Ptr>, depth: nat)
  type Meaning = map<Ptr, Info>

  function Base(h: Heap, k: Ptr): nat {
    if k in h then h[k].base else 0
  }

  /** The pointers reached from p through `link` are exactly `kids`. */
  predicate ListFrom(h: Heap, p: Ptr, kids: seq<Ptr>)
    decreases |kids|
  {
    if kids == [] then p == NULL else p == kids[0] && p in h && ListFrom(h, h[p].link, kids[1..])
  }

  predicate DistinctBases(h: Heap, kids: seq<Ptr>)
    decreases |kids|
  {
    kids == [] || (DistinctBases(h, kids[1..]) && forall k :: k in kids[1..] ==> Base(h, k) != Base(h, kids[0]))
  }

  predicate AreMembers(h: Heap, e: Ptr, kids: seq<Ptr>) {
    forall k :: k in kids ==> k in h && h[k].parent == e
  }

  /** The list behind an archive's `members` pointer: its own open members, no two at the same
      place in the file. */
  predicate Linked(h: Heap, m: Meaning, e: Ptr)
    requires e in h && e in m
  {
    var kids := m[e].kids;
    && ListFrom(h, h[e].members, kids) && AreMembers(h, e, kids) && DistinctBases(h, kids)
    && (kids != [] ==> h[e].archive)
  }

  predicate HasParent(h: Heap, m: Meaning, e: Ptr)
    requires e in h && e in m
  {
    var p := h[e].parent;
    p != NULL ==> p in h && p in m && e in m[p].kids && m[e].depth == m[p].depth + 1
  }

  /** The count is the caller's handles plus the linked members, plus `extra`. */
  predicate Counted(h: Heap, m: Meaning, e: Ptr, extra: nat)
    requires e in h && e in m
  {
    h[e].count == m[e].held + |m[e].kids| + extra && h[e].count > 0
  }

  predicate InOrder(h: Heap, m: Meaning, e: Ptr, pending: Ptr)
    requires e in h && e in m
  {
    Linked(h, m, e) && HasParent(h, m, e) && Counted(h, m, e, if e == pending then 1 else 0)
  }

  /** Every allocated descriptor is in order; `pending`, unless NULL, carries one reference more
      than it has handles and members. */
  predicate Consistent(h: Heap, m: Meaning, pending: Ptr) {
    && h.Keys == m.Keys && NULL !in h
    && forall e :: e in h ==> InOrder(h, m, e, pending)
  }

  // -------------------------------------------------------------------- frames

  /** The parts of a node that its siblings and its archive rely on. */
  predicate SameMember(h: Heap, h': Heap, k: Ptr) {
    k in h && k in h' && h'[k].parent == h[k].parent && h'[k].link == h[k].link && h'[k].base == h[k].base
  }

  predicate SameMembers(h: Heap, h': Heap, kids: seq<Ptr>) {
    forall k :: k in kids ==> SameMember(h, h', k)
  }

  lemma {:induction false} ListFrame(h: Heap, h': Heap, p: Ptr, kids: seq<Ptr>)
    requires SameMembers(h, h', kids)
    ensures ListFrom(h, p, kids) ==> ListFrom(h', p, kids)
    ensures DistinctBases(h, kids) ==> DistinctBases(h', kids)
    decreases |kids|
  {
    if kids != [] {
      assert SameMember(h, h', kids[0]);
      assert SameMembers(h, h', kids[1..]);
      ListFrame(h, h', h[kids[0]].link, kids[1..]);
      forall k | k in kids[1..] ensures Base(h', k) == Base(h, k) { assert SameMember(h, h', k); }
    }
  }

  lemma LinkedFrame(h: Heap, m: Meaning, h': Heap, m': Meaning, e: Ptr)
    requires e in h && e in m && Linked(h, m, e)
    requires e in h' && e in m' && m'[e].kids == m[e].kids && h'[e].members == h[e].members && h'[e].archive == h[e].archive
    requires SameMembers(h, h', m[e].kids)
    ensures Linked(h', m', e)
  {
    hide ListFrom, DistinctBases;
    ListFrame(h, h', h[e].members, m[e].kids);
    forall k | k in m[e].kids ensures k in h' && h'[k].parent == e { assert SameMember(h, h', k); }
  }

  /** Everything in order except counts and handles. */
  lemma CountsOnly(h: Heap, m: Meaning, h': Heap, m': Meaning, pending: Ptr, y: Ptr, pending': Ptr)
    requires Consistent(h, m, pending) && h.Keys == h'.Keys == m'.Keys && y in h
    requires forall x :: x in h ==> h'[x] == h[x].(count := h'[x].count) && m'[x] == m[x].(held := m'[x].held)
    requires Counted(h', m', y, if y == pending' then 1 else 0)
    ensures InOrder(h', m', y, pending')
  {
    hide ListFrom, DistinctBases;
    assert InOrder(h, m, y, pending);
    forall k | k in m[y].kids ensures SameMember(h, h', k) { assert k in h && h'[k] == h[k].(count := h'[k].count); }
    LinkedFrame(h, m, h', m', y);
    var p := h[y].parent;
    if p != NULL { assert m'[p] == m[p].(held := m'[p].held); }
  }

  // ------------------------------------------------------------------- opening

  /** One more handle to an open descriptor. */
  lemma RetainKeeps(h: Heap, m: Meaning, e: Ptr)
    requires Consistent(h, m, NULL) && e in h
    ensures Consistent(h[e := h[e].(count := h[e].count + 1)], m[e := m[e].(held := m[e].held + 1)], NULL)
  {
    hide Linked, HasParent;
    var h', m' := h[e := h[e].(count := h[e].count + 1)], m[e := m[e].(held := m[e].held + 1)];
    forall x | x in h' ensures InOrder(h', m', x, NULL) {
      assert InOrder(h, m, x, NULL);
      CountsOnly(h, m, h', m', NULL, x, NULL);
    }
  }

  /** INIT_ELF, then what elf_begin sets; an archive starts at its first member. */
  function NewElf(parent: Ptr, link: Ptr, base: nat, archive: bool, access: Access): Elf {
    Elf(1, parent, NULL, link, base, archive, if archive then SARMAG else 0, access)
  }

  lemma NewRootKeeps(h: Heap, m: Meaning, x: Ptr, archive: bool, access: Access)
    requires Consistent(h, m, NULL) && x !in h && x != NULL
    ensures Consistent(h[x := NewElf(NULL, NULL, 0, archive, access)], m[x := Info(1, [], 0)], NULL)
  {
    var h', m' := h[x := NewElf(NULL, NULL, 0, archive, access)], m[x := Info(1, [], 0)];
    forall y | y in h' ensures InOrder(h', m', y, NULL) {
      if y != x { Untouched(h, m, h', m', y); }
    }
  }

  /** Adding a descriptor disturbs no other that keeps its own fields. */
  lemma Untouched(h: Heap, m: Meaning, h': Heap, m': Meaning, y: Ptr)
    requires Consistent(h, m, NULL) && y in h && y in h' && y in m' && h'[y] == h[y] && m'[y] == m[y]
    requires forall k :: k in h ==> SameMember(h, h', k) && k in m' && m'[k].depth == m[k].depth
    requires forall k :: k in h && y in m[k].kids ==> y in m'[k].kids
    ensures InOrder(h', m', y, NULL)
  {
    hide ListFrom, DistinctBases;
    assert InOrder(h, m, y, NULL);
    forall k | k in m[y].kids ensures SameMember(h, h', k) { assert k in h; }
    LinkedFrame(h, m, h', m', y);
    var p := h[y].parent;
    if p != NULL { assert SameMember(h, h', p); }
  }

  function AfterAdd(h: Heap, ref: Ptr, x: Ptr, base: nat, archive: bool, next: nat, access: Access): Heap
    requires ref in h
  {
    h[x := NewElf(ref, h[ref].members, base, archive, access)]
     [ref := h[ref].(members := x, count := h[ref].count + 1, off := next)]
  }

  function MeaningAfterAdd(m: Meaning, ref: Ptr, x: Ptr): Meaning
    requires ref in m
  {
    m[x := Info(1, [], m[ref].depth + 1)][ref := m[ref].(kids := [x] + m[ref].kids)]
  }

  predicate MayAdd(h: Heap, m: Meaning, ref: Ptr, x: Ptr, base: nat) {
    && Consistent(h, m, NULL) && ref in h && h[ref].archive && x !in h && x != NULL
    && forall k :: k in m[ref].kids ==> Base(h, k) != base
  }

  lemma AddRef(h: Heap, m: Meaning, ref: Ptr, x: Ptr, base: nat, archive: bool, next: nat, access: Access)
    requires MayAdd(h, m, ref, x, base)
    ensures InOrder(AfterAdd(h, ref, x, base, archive, next, access), MeaningAfterAdd(m, ref, x), ref, NULL)
  {
    assert InOrder(h, m, ref, NULL);
    var h', m' := AfterAdd(h, ref, x, base, archive, next, access), MeaningAfterAdd(m, ref, x);
    var kids := m[ref].kids;
    forall k | k in kids ensures SameMember(h, h', k) { assert k in h; }
    ListFrame(h, h', h[ref].members, kids);
    assert ([x] + kids)[1..] == kids;
    var p := h[ref].parent;
    if p != NULL { assert ref in m[p].kids; }
  }

  lemma AddKeeps(h: Heap, m: Meaning, ref: Ptr, x: Ptr, base: nat, archive: bool, next: nat, access: Access)
    requires MayAdd(h, m, ref, x, base)
    ensures Consistent(AfterAdd(h, ref, x, base, archive, next, access), MeaningAfterAdd(m, ref, x), NULL)
  {
    hide InOrder;
    var h', m' := AfterAdd(h, ref, x, base, archive, next, access), MeaningAfterAdd(m, ref, x);
    forall y | y in h' ensures InOrder(h', m', y, NULL) {
      if y == x { AddNew(h, m, ref, x, base, archive, next, access); }
      else if y == ref { AddRef(h, m, ref, x, base, archive, next, access); }
      else { Untouched(h, m, h', m', y); }
    }
  }

  lemma AddNew(h: Heap, m: Meaning, ref: Ptr, x: Ptr, base: nat, archive: bool, next: nat, access: Access)
    requires MayAdd(h, m, ref, x, base)
    ensures InOrder(AfterAdd(h, ref, x, base, archive, next, access), MeaningAfterAdd(m, ref, x), x, NULL)
  {
    var m' := MeaningAfterAdd(m, ref, x);
    assert m'[ref].kids[0] == x;
  }

  // ------------------------------------------------------------------- closing

  function Remove(kids: seq<Ptr>, e: Ptr): (r: seq<Ptr>)
    decreases |kids|
  {
    if kids == [] then [] else if kids[0] == e then kids[1..] else [kids[0]] + Remove(kids[1..], e)
  }

  lemma {:induction false} RemoveOne(h: Heap, kids: seq<Ptr>, e: Ptr)
    requires DistinctBases(h, kids) && e in kids
    ensures |Remove(kids, e)| == |kids| - 1
    ensures forall k :: k in Remove(kids, e) <==> k in kids && k != e
    ensures DistinctBases(h, Remove(kids, e))
    decreases |kids|
  {
    assert kids == [kids[0]] + kids[1..];
    if kids[0] != e {
      RemoveOne(h, kids[1..], e);
      var r := Remove(kids[1..], e);
      assert ([kids[0]] + r)[1..] == r;
    }
  }

  /** The sibling whose link points at e. */
  function Before(kids: seq<Ptr>, e: Ptr): (q: Ptr)
    requires e in kids && kids[0] != e
    ensures q in kids && q != e
    decreases |kids|
  {
    if kids[1] == e then kids[0] else Before(kids[1..], e)
  }

  /** The pointer walk of elf_end: whatever pointed at e now points at its successor. */
  function Unlink(h: Heap, p: Ptr, kids: seq<Ptr>, e: Ptr): Heap
    requires p in h && e in h && e in kids && forall k :: k in kids ==> k in h
  {
    if kids[0] == e then h[p := h[p].(members := h[e].link)]
    else h[Before(kids, e) := h[Before(kids, e)].(link := h[e].link)]
  }

  lemma FirstIsOnce(h: Heap, kids: seq<Ptr>)
    requires kids != [] && DistinctBases(h, kids)
    ensures kids[0] !in kids[1..]
  {
  }

  lemma {:induction false} UnlinkList(h: Heap, start: Ptr, kids: seq<Ptr>, e: Ptr)
    requires ListFrom(h, start, kids) && DistinctBases(h, kids) && e in kids && kids[0] != e && e in h
    requires forall k :: k in kids ==> k in h
    ensures var q := Before(kids, e); ListFrom(h[q := h[q].(link := h[e].link)], start, Remove(kids, e))
    decreases |kids|
  {
    var q := Before(kids, e);
    var h' := h[q := h[q].(link := h[e].link)];
    var rest := kids[1..];
    FirstIsOnce(h, kids);
    if kids[1] == e {
      FirstIsOnce(h, rest);
      var tail := kids[2..];
      assert rest[1..] == tail;
      assert forall k :: k in tail ==> k in rest;
      TailKeeps(h, h', h[e].link, tail);
      assert Remove(kids, e) == [kids[0]] + tail;
      assert ([kids[0]] + tail)[1..] == tail;
    } else {
      UnlinkList(h, h[kids[0]].link, rest, e);
      assert q in rest && q != kids[0];
      assert ([kids[0]] + Remove(rest, e))[1..] == Remove(rest, e);
    }
  }

  lemma {:induction false} TailKeeps(h: Heap, h': Heap, p: Ptr, kids: seq<Ptr>)
    requires ListFrom(h, p, kids) && forall k :: k in kids ==> k in h && k in h' && h'[k].link == h[k].link
    ensures ListFrom(h', p, kids)
    decreases |kids|
  {
    if kids != [] { TailKeeps(h, h', h[p].link, kids[1..]); }
  }

  /** The last reference to e is being dropped. */
  predicate LastReference(h: Heap, m: Meaning, e: Ptr) {
    Consistent(h, m, e) && e in h && h[e].count == 1
  }

  /** No member points at a descriptor that is released. */
  lemma ReleasedHasNoMembers(h: Heap, m: Meaning, e: Ptr)
    requires LastReference(h, m, e)
    ensures m[e].held == 0 && m[e].kids == []
    ensures forall y :: y in h ==> h[y].parent != e
  {
    hide Linked;
    assert InOrder(h, m, e, e);
    forall y | y in h ensures h[y].parent != e {
      assert InOrder(h, m, y, e);
    }
  }

  lemma ReleaseRootKeeps(h: Heap, m: Meaning, e: Ptr)
    requires LastReference(h, m, e) && h[e].parent == NULL
    ensures Consistent(h - {e}, m - {e}, NULL)
  {
    hide ListFrom, DistinctBases;
    ReleasedHasNoMembers(h, m, e);
    var h', m' := h - {e}, m - {e};
    forall y | y in h' ensures InOrder(h', m', y, NULL) {
      assert InOrder(h, m, y, e);
      forall k | k in m[y].kids ensures SameMember(h, h', k) { assert k in h && h[k].parent == y; }
      LinkedFrame(h, m, h', m', y);
      assert h[y].parent != e;
    }
  }

  function HeapAfterRelease(h: Heap, m: Meaning, e: Ptr): Heap
    requires LastReference(h, m, e) && h[e].parent != NULL
  {
    assert InOrder(h, m, e, e);
    var p := h[e].parent;
    assert InOrder(h, m, p, e);
    Unlink(h, p, m[p].kids, e) - {e}
  }

  function MeaningAfterRelease(h: Heap, m: Meaning, e: Ptr): Meaning
    requires LastReference(h, m, e) && h[e].parent != NULL
  {
    assert InOrder(h, m, e, e);
    var p := h[e].parent;
    (m - {e})[p := m[p].(kids := Remove(m[p].kids, e))]
  }

  lemma ReleaseSites(h: Heap, m: Meaning, e: Ptr)
    requires LastReference(h, m, e) && h[e].parent != NULL
    ensures var p := h[e].parent; p in h && p in m && p != e && e in m[p].kids && InOrder(h, m, p, e) && e != NULL
  {
    hide Linked;
    assert InOrder(h, m, e, e);
    assert InOrder(h, m, h[e].parent, e);
  }

  lemma ReleaseList(h: Heap, m: Meaning, e: Ptr)
    requires LastReference(h, m, e) && h[e].parent != NULL
    ensures var p := h[e].parent; var h' := HeapAfterRelease(h, m, e);
            p in h' && p in m && ListFrom(h', h'[p].members, Remove(m[p].kids, e))
  {
    ReleaseSites(h, m, e);
    var p := h[e].parent;
    var kids := m[p].kids;
    var h1, h' := Unlink(h, p, kids, e), HeapAfterRelease(h, m, e);
    RemoveOne(h, kids, e);
    if kids[0] == e {
      TailKeeps(h, h', h[e].link, kids[1..]);
    } else {
      UnlinkList(h, h[p].members, kids, e);
      assert ListFrom(h1, h1[p].members, Remove(kids, e));
      TailKeeps(h1, h', h1[p].members, Remove(kids, e));
    }
  }

  /** What the release leaves alone. */
  lemma ReleaseFrame(h: Heap, m: Meaning, e: Ptr, k: Ptr)
    requires LastReference(h, m, e) && h[e].parent != NULL && k in h && k != e
    ensures var h' := HeapAfterRelease(h, m, e);
            && k in h' && h'[k].count == h[k].count && h'[k].parent == h[k].parent && h'[k].base == h[k].base
            && h'[k].archive == h[k].archive
            && (k != h[e].parent ==> h'[k].members == h[k].members)
            && (h[k].parent != h[e].parent ==> h'[k].link == h[k].link)
  {
    hide ListFrom, DistinctBases, Remove;
    ReleaseSites(h, m, e);
  }

  lemma ReleaseParent(h: Heap, m: Meaning, e: Ptr)
    requires LastReference(h, m, e) && h[e].parent != NULL
    ensures var p := h[e].parent; var h' := HeapAfterRelease(h, m, e); var m' := MeaningAfterRelease(h, m, e);
            p in h' && p in m' && InOrder(h', m', p, p)
  {
    hide ListFrom, HeapAfterRelease, Remove, DistinctBases;
    ReleaseSites(h, m, e);
    ReleasedHasNoMembers(h, m, e);
    ReleaseList(h, m, e);
    var p := h[e].parent;
    var h', m' := HeapAfterRelease(h, m, e), MeaningAfterRelease(h, m, e);
    var kids := m[p].kids;
    RemoveOne(h, kids, e);
    ReleaseFrame(h, m, e, p);
    forall k | k in Remove(kids, e) ensures k in h' && h'[k].parent == p && Base(h', k) == Base(h, k) {
      ReleaseFrame(h, m, e, k);
    }
    BasesKeep(h, h', Remove(kids, e));
    var g := h[p].parent;
    if g != NULL { assert h[p].parent != e; ReleaseFrame(h, m, e, g); }
  }

  lemma {:induction false} BasesKeep(h: Heap, h': Heap, kids: seq<Ptr>)
    requires DistinctBases(h, kids) && forall k :: k in kids ==> Base(h', k) == Base(h, k)
    ensures DistinctBases(h', kids)
    decreases |kids|
  {
    if kids != [] { BasesKeep(h, h', kids[1..]); }
  }

  lemma ReleaseOther(h: Heap, m: Meaning, e: Ptr, y: Ptr)
    requires LastReference(h, m, e) && h[e].parent != NULL && y in h && y != e && y != h[e].parent
    ensures var h' := HeapAfterRelease(h, m, e); var m' := MeaningAfterRelease(h, m, e);
            y in h' && y in m' && InOrder(h', m', y, h[e].parent)
  {
    hide ListFrom, HeapAfterRelease, Remove, DistinctBases;
    ReleaseSites(h, m, e);
    ReleasedHasNoMembers(h, m, e);
    var p := h[e].parent;
    var h', m' := HeapAfterRelease(h, m, e), MeaningAfterRelease(h, m, e);
    assert InOrder(h, m, y, e);
    ReleaseFrame(h, m, e, y);
    forall k | k in m[y].kids ensures SameMember(h, h', k) {
      assert k in h && h[k].parent == y;
      ReleaseFrame(h, m, e, k);
    }
    LinkedFrame(h, m, h', m', y);
    var g := h[y].parent;
    if g != NULL {
      assert g != e;
      ReleaseFrame(h, m, e, g);
      if g == p { RemoveOne(h, m[p].kids, e); }
    }
  }

  lemma ReleaseKeys(h: Heap, m: Meaning, e: Ptr)
    requires LastReference(h, m, e) && h[e].parent != NULL
    ensures HeapAfterRelease(h, m, e).Keys == h.Keys - {e} && MeaningAfterRelease(h, m, e).Keys == h.Keys - {e}
  {
    hide ListFrom, DistinctBases, Remove;
    ReleaseSites(h, m, e);
    assert InOrder(h, m, h[e].parent, e);
  }

  /** Releasing a member leaves exactly one reference of its archive to be dropped next. */
  lemma ReleaseMemberKeeps(h: Heap, m: Meaning, e: Ptr)
    requires LastReference(h, m, e) && h[e].parent != NULL
    ensures Consistent(HeapAfterRelease(h, m, e), MeaningAfterRelease(h, m, e), h[e].parent)
  {
    hide InOrder, Remove;
    ReleaseSites(h, m, e);
    var p := h[e].parent;
    var h', m' := HeapAfterRelease(h, m, e), MeaningAfterRelease(h, m, e);
    ReleaseKeys(h, m, e);
    forall y | y in h' ensures InOrder(h', m', y, p) {
      if y == p { ReleaseParent(h, m, e); } else { ReleaseOther(h, m, e, y); }
    }
  }

  // ------------------------------------------------------------------ the library

  datatype Cmd = CmdNull | CmdRead | CmdWrite | CmdRdwr | CmdOther

  /** What the bytes say: the header of the member at the archive's current offset, if it is a
      valid one, and whether the contents are an archive. */
  datatype Header = NoHeader | Header(size: nat, archive: bool)

  /** What the file system says about a file to be opened. */
  datatype File = File(fd: int, sizeKnown: bool, readable: bool, archive: bool)

  class Library {
    var heap: Heap
    ghost var meaning: Meaning

    ghost predicate Valid()
      reads this
    {
      Consistent(heap, meaning, NULL)
    }

    constructor ()
      ensures Valid() && heap == map[] && meaning == map[]
    {
      heap, meaning := map[], map[];
    }

    method Retain(e: Ptr)
      requires Valid() && e in heap
      modifies this
      ensures Valid() && Granted(old(heap), heap, old(meaning), meaning, e)
      ensures heap == old(heap)[e := old(heap[e]).(count := old(heap[e].count) + 1)]
    {
      hide InOrder;
      RetainKeeps(heap, meaning, e);
      heap := heap[e := heap[e].(count := heap[e].count + 1)];
      meaning := meaning[e := meaning[e].(held := meaning[e].held + 1)];
    }

    /** The scan of the open members for the one at `base`. */
    method FindMember(ref: Ptr, base: nat) returns (x: Ptr)
      requires Valid() && ref in heap
      ensures x != NULL ==> x in meaning[ref].kids && x in heap && heap[x].base == base && heap[x].parent == ref
      ensures x == NULL ==> forall k :: k in meaning[ref].kids ==> Base(heap, k) != base
    {
      hide Consistent, DistinctBases;
      MembersOf(heap, meaning, ref);
      x := heap[ref].members;
      ghost var kids := meaning[ref].kids;
      ghost var rest := kids;
      ghost var seen: seq<Ptr> := [];
      while x != NULL && heap[x].base != base
        invariant ListFrom(heap, x, rest) && kids == seen + rest
        invariant forall k :: k in seen ==> Base(heap, k) != base
        invariant x != NULL ==> x in heap
        decreases |rest|
      {
        assert kids == (seen + [x]) + rest[1..];
        x := heap[x].link;
        seen, rest := seen + [rest[0]], rest[1..];
      }
      if x != NULL { assert x == rest[0] && x in kids; }
    }

    /** elf_begin on an archive whose current member has a valid header: the open descriptor for
        that member, or a new one at `block` linked into the archive. */
    method BeginMember(ref: Ptr, header: Header, block: Ptr) returns (r: Ptr)
      requires Valid() && ref in heap && heap[ref].archive && header.Header? && block !in heap
      modifies this
      ensures Valid()
      ensures r == NULL <==> block == NULL
      ensures r == NULL ==> heap == old(heap) && meaning == old(meaning)
      ensures r != NULL ==> Granted(old(heap), heap, old(meaning), meaning, r)
      ensures r != NULL ==> heap[r].parent == ref && heap[r].base == old(heap[ref].base) + old(heap[ref].off) + 60
      ensures r != NULL && Open(old(heap), old(meaning), ref, old(heap[ref].off)) ==>
                r in old(heap) && heap == old(heap)[r := old(heap[r]).(count := old(heap[r].count) + 1)]
      ensures r != NULL && !Open(old(heap), old(meaning), ref, old(heap[ref].off)) ==>
                var offset := old(heap[ref].off) + 60;
                r == block && heap == old(heap)[r := Elf(1, ref, NULL, old(heap[ref].members), old(heap[ref].base) + offset,
                                                         header.archive, if header.archive then 8 else 0,
                                                         Access(true, false, old(heap[ref].access.memory), old(heap[ref].access.fd)))]
                                               [ref := old(heap[ref]).(members := r, count := old(heap[ref].count) + 1,
                                                                       off := offset + header.size + header.size % 2)]
    {
      hide InOrder;
      if block == NULL {
        return NULL;
      }
      var offset := heap[ref].off + AR_HDR;
      var base := heap[ref].base + offset;
      r := FindMember(ref, base);
      if r != NULL {
        assert Base(heap, r) == base;
        Retain(r);
        assert heap[r].parent == ref && heap[r].base == base;
      } else {
        r := block;
        var next := offset + header.size + header.size % 2;
        var access := Access(true, false, heap[ref].access.memory, heap[ref].access.fd);
        AddKeeps(heap, meaning, ref, r, base, header.archive, next, access);
        heap := AfterAdd(heap, ref, r, base, header.archive, next, access);
        meaning := MeaningAfterAdd(meaning, ref, r);
        assert heap[r].parent == ref && heap[r].base == base;
      }
    }

    /** elf_begin without an archive: a new descriptor of its own, at `block`. */
    method BeginFile(block: Ptr, archive: bool, access: Access) returns (r: Ptr)
      requires Valid() && block !in heap
      modifies this
      ensures Valid() && r == block
      ensures r == NULL ==> heap == old(heap) && meaning == old(meaning)
      ensures r != NULL ==> Granted(old(heap), heap, old(meaning), meaning, r)
      ensures r != NULL ==> heap == old(heap)[r := Elf(1, NULL, NULL, NULL, 0, archive, if archive then 8 else 0, access)]
    {
      hide InOrder;
      r := block;
      if r != NULL {
        NewRootKeeps(heap, meaning, r, archive, access);
        heap := heap[r := NewElf(NULL, NULL, 0, archive, access)];
        meaning := meaning[r := Info(1, [], 0)];
      }
    }

    /** elf_memory: a descriptor for an image the caller owns. */
    method Memory(version: bool, image: bool, size: nat, archive: bool, block: Ptr) returns (r: Ptr)
      requires Valid() && block !in heap
      modifies this
      ensures Valid()
      ensures r == if version && image && size > 0 then block else NULL
      ensures r == NULL ==> heap == old(heap) && meaning == old(meaning)
      ensures r != NULL ==> Granted(old(heap), heap, old(meaning), meaning, r)
      ensures r != NULL ==> heap == old(heap)[r := Elf(1, NULL, NULL, NULL, 0, archive, if archive then 8 else 0,
                                                       Access(true, false, true, -1))]
    {
      if !version || size == 0 || !image { return NULL; }
      r := BeginFile(block, archive, Access(true, false, true, -1));
    }

    /** elf_begin: NULL and nothing changed, or one more handle. Writing needs nothing, a plain descriptor serves whoever
        its own access rights admit, and an archive only readers of the same file whose next member is sound; `block` is
        what malloc returns. */
    method Begin(version: bool, fd: int, cmd: Cmd, ref: Ptr, file: File, header: Header, block: Ptr) returns (r: Ptr)
      requires Valid() && (ref == NULL || ref in heap) && block !in heap
      modifies this
      ensures Valid()
      ensures r != NULL <==>
              version
              && (|| cmd == CmdWrite
                  || (cmd in {CmdRead, CmdRdwr} && ref == NULL && file.sizeKnown && file.readable)
                  || (cmd in {CmdRead, CmdRdwr} && ref != NULL && old(heap[ref].access.readable)
                      && (cmd == CmdRdwr ==> old(heap[ref].access.writable) && !old(heap[ref].archive))
                      && (old(heap[ref].archive) ==> header.Header? && (old(heap[ref].access.memory) || fd == old(heap[ref].access.fd)))))
              && (block != NULL || (cmd != CmdWrite && ref != NULL && !old(heap[ref].archive)))
      ensures r == NULL ==> heap == old(heap) && meaning == old(meaning)
      ensures r != NULL ==> Granted(old(heap), heap, old(meaning), meaning, r)
      ensures r != NULL && (cmd == CmdWrite || ref == NULL) ==>
                var archive := cmd != CmdWrite && file.archive;
                r == block && heap == old(heap)[r := Elf(1, NULL, NULL, NULL, 0, archive, if archive then 8 else 0,
                                                         Access(cmd != CmdWrite, cmd != CmdRead, false, fd))]
      ensures r != NULL && cmd != CmdWrite && ref != NULL ==>
                if old(heap[ref].archive)
                then heap[r].parent == ref && heap[r].base == old(heap[ref].base) + old(heap[ref].off) + 60
                else r == ref
    {
      hide Consistent, Granted;
      r := NULL;
      if !version || cmd == CmdNull {
        return;
      } else if cmd == CmdWrite {
        r := BeginFile(block, false, Access(false, true, false, fd));
      } else if cmd != CmdRead && cmd != CmdRdwr {
        return;
      } else if ref != NULL {
        ValidHeap(heap, meaning, ref);
        if !heap[ref].access.readable || (cmd == CmdRdwr && !heap[ref].access.writable) {
          return;
        }
        if !heap[ref].archive {
          Retain(ref);
          return ref;
        }
        if cmd == CmdRdwr || (!heap[ref].access.memory && fd != heap[ref].access.fd) || header == NoHeader {
          return;
        }
        r := BeginMember(ref, header, block);
      } else if file.sizeKnown && file.readable {
        r := BeginFile(block, file.archive, Access(true, cmd == CmdRdwr, false, fd));
      }
    }

    /** The pointer walk that takes e out of its archive's list. */
    method UnlinkFrom(p: Ptr, e: Ptr, ghost kids: seq<Ptr>)
      requires p in heap && e in heap && e in kids && forall k :: k in kids ==> k in heap
      requires ListFrom(heap, heap[p].members, kids)
      modifies this`heap
      ensures heap == Unlink(old(heap), p, kids, e)
    {
      if heap[p].members == e {
        heap := heap[p := heap[p].(members := heap[e].link)];
        return;
      }
      var q := heap[p].members;
      ghost var rest := kids;
      while heap[q].link != e
        invariant heap == old(heap) && ListFrom(heap, q, rest) && e in rest && q == rest[0] != e && q in heap
        invariant Before(rest, e) == Before(kids, e)
        decreases |rest|
      {
        assert rest == [rest[0]] + rest[1..];
        q := heap[q].link;
        rest := rest[1..];
      }
      assert rest == [rest[0]] + rest[1..];
      heap := heap[q := heap[q].(link := heap[e].link)];
    }

    /** Drops one reference to e that no handle and no member stands for. */
    method Drop(e: Ptr) returns (r: nat)
      requires e in heap && Consistent(heap, meaning, e)
      modifies this
      ensures Valid() && OnlyReleased(old(heap), heap, old(meaning), meaning)
      ensures if old(heap[e].count) > 1 then heap == old(heap)[e := old(heap[e]).(count := r)] && r == old(heap[e].count) - 1
              else r == 0 && e !in heap
      decreases meaning[e].depth
    {
      hide InOrder, HeapAfterRelease, MeaningAfterRelease;
      ghost var h, m := heap, meaning;
      if heap[e].count > 1 {
        DropKeeps(heap, meaning, e);
        r := heap[e].count - 1;
        heap := heap[e := heap[e].(count := r)];
        return;
      }
      CountIsPositive(h, m, e);
      r := 0;
      ReleasedHasNoMembers(h, m, e);
      var p := heap[e].parent;
      if p != NULL {
        ReleaseSites(h, m, e);
        ReleaseUnlinks(h, m, e);
        ReleaseKeys(h, m, e);
        ReleaseHeld(h, m, e);
        ReleaseMemberKeeps(h, m, e);
        ReleaseShallower(h, m, e);
        UnlinkFrom(p, e, meaning[p].kids);
        heap := heap - {e};
        meaning := MeaningAfterRelease(h, m, e);
        var _ := Drop(p);
      } else {
        ReleaseRootKeeps(h, m, e);
        heap, meaning := heap - {e}, meaning - {e};
      }
    }

    /** elf_end: one handle less; what nothing refers to any more is released, upwards. */
    method End(e: Ptr) returns (r: nat)
      requires Valid() && (e == NULL || (e in heap && meaning[e].held > 0))
      modifies this
      ensures Valid()
      ensures e == NULL ==> r == 0 && heap == old(heap) && meaning == old(meaning)
      ensures e != NULL ==> OnlyReleased(old(heap), heap, old(Given(meaning, e)), meaning)
      ensures e != NULL ==> r == (if e in heap then heap[e].count else 0) && (e in heap <==> old(heap[e].count) > 1)
    {
      hide InOrder;
      if e == NULL { return 0; }
      EndPending(heap, meaning, e);
      meaning := Given(meaning, e);
      r := Drop(e);
    }
  }

  /** The caller gives one handle to e back. */
  function Given(m: Meaning, e: Ptr): Meaning {
    if e in m && m[e].held > 0 then m[e := m[e].(held := m[e].held - 1)] else m
  }

  /** Nothing was allocated, no remaining descriptor lost or gained a handle, and no descriptor
      with a handle was released. */
  predicate OnlyReleased(h: Heap, h': Heap, m: Meaning, m': Meaning) {
    && h'.Keys <= h.Keys && h.Keys == m.Keys && h'.Keys == m'.Keys
    && (forall x :: x in h' ==> m'[x].held == m[x].held)
    && (forall x :: x in h && x !in h' ==> m[x].held == 0)
  }

  lemma ValidHeap(h: Heap, m: Meaning, e: Ptr)
    requires Consistent(h, m, NULL) && e in h
    ensures e in m
  {
  }

  lemma CountIsPositive(h: Heap, m: Meaning, e: Ptr)
    requires Consistent(h, m, e) && e in h
    ensures h[e].count > 0
  {
    assert InOrder(h, m, e, e);
  }

  lemma DropKeeps(h: Heap, m: Meaning, e: Ptr)
    requires Consistent(h, m, e) && e in h && h[e].count > 1
    ensures Consistent(h[e := h[e].(count := h[e].count - 1)], m, NULL)
  {
    hide Linked, HasParent;
    var h' := h[e := h[e].(count := h[e].count - 1)];
    forall x | x in h' ensures InOrder(h', m, x, NULL) {
      assert InOrder(h, m, x, e);
      CountsOnly(h, m, h', m, e, x, NULL);
    }
  }

  lemma EndPending(h: Heap, m: Meaning, e: Ptr)
    requires Consistent(h, m, NULL) && e in h && m[e].held > 0
    ensures Consistent(h, Given(m, e), e)
  {
    hide Linked, HasParent;
    var m' := Given(m, e);
    forall x | x in h ensures InOrder(h, m', x, e) {
      assert InOrder(h, m, x, NULL);
      CountsOnly(h, m, h, m', NULL, x, e);
    }
  }

  lemma ReleaseUnlinks(h: Heap, m: Meaning, e: Ptr)
    requires LastReference(h, m, e) && h[e].parent != NULL
    ensures var p := h[e].parent;
            && p in h && p in m && (forall k :: k in m[p].kids ==> k in h) && e in m[p].kids
            && ListFrom(h, h[p].members, m[p].kids)
            && HeapAfterRelease(h, m, e) == Unlink(h, p, m[p].kids, e) - {e}
  {
    ReleaseSites(h, m, e);
  }

  lemma ReleaseHeld(h: Heap, m: Meaning, e: Ptr)
    requires LastReference(h, m, e) && h[e].parent != NULL
    ensures var m' := MeaningAfterRelease(h, m, e);
            forall x :: x in m' ==> x in m && m'[x].held == m[x].held && m'[x].depth == m[x].depth
  {
    hide InOrder, Remove;
    ReleaseSites(h, m, e);
  }

  lemma ReleaseShallower(h: Heap, m: Meaning, e: Ptr)
    requires LastReference(h, m, e) && h[e].parent != NULL
    ensures h[e].parent in m && m[h[e].parent].depth < m[e].depth
  {
    hide Linked;
    assert InOrder(h, m, e, e);
  }

  lemma MembersOf(h: Heap, m: Meaning, e: Ptr)
    requires Consistent(h, m, NULL) && e in h
    ensures e in m && ListFrom(h, h[e].members, m[e].kids) && AreMembers(h, e, m[e].kids) && NULL !in h
  {
    assert InOrder(h, m, e, NULL);
  }

  /** A member at this offset of the archive is already open. */
  predicate Open(h: Heap, m: Meaning, ref: Ptr, off: nat)
    requires ref in h && ref in m
  {
    exists k :: k in m[ref].kids && Base(h, k) == h[ref].base + off + AR_HDR
  }

  /** The caller holds one more handle to r and as many as before to everything else; nothing
      was released. */
  predicate Granted(h: Heap, h': Heap, m: Meaning, m': Meaning, r: Ptr) {
    && h'.Keys == h.Keys + {r} == m'.Keys && h.Keys == m.Keys
    && m'[r].held == (if r in m then m[r].held + 1 else 1)
    && forall x :: x in m && x != r ==> m'[x].held == m[x].held
  }

  // ----------------------------------------------------------------- no leaks

  /** d is e or one of the members below it. */
  predicate Below(h: Heap, m: Meaning, d: Ptr, e: Ptr)
    requires Consistent(h, m, NULL) && d in h
    decreases m[d].depth
  {
    d == e || (assert InOrder(h, m, d, NULL); h[d].parent != NULL && Below(h, m, h[d].parent, e))
  }

  lemma {:induction false} BelowMember(h: Heap, m: Meaning, d: Ptr, k: Ptr, e: Ptr)
    requires Consistent(h, m, NULL) && d in h && k in h && e in h && h[k].parent == e && Below(h, m, d, k)
    ensures Below(h, m, d, e)
    decreases m[d].depth
  {
    hide Linked, Counted;
    assert InOrder(h, m, d, NULL);
    if d != k { BelowMember(h, m, h[d].parent, k, e); }
  }

  function Deeper(m: Meaning, n: nat): set<Ptr> {
    set x | x in m && m[x].depth > n
  }

  /** Whatever is allocated is there for a handle: on it, or on a member somewhere below. */
  lemma {:induction false} NothingLeaks(h: Heap, m: Meaning, e: Ptr) returns (d: Ptr)
    requires Consistent(h, m, NULL) && e in h
    ensures d in h && Below(h, m, d, e) && m[d].held > 0
    decreases |Deeper(m, m[e].depth)|
  {
    hide ListFrom, DistinctBases;
    assert InOrder(h, m, e, NULL);
    if m[e].held > 0 { return e; }
    var k := m[e].kids[0];
    assert k in h && h[k].parent == e;
    assert InOrder(h, m, k, NULL);
    assert k in Deeper(m, m[e].depth) && k !in Deeper(m, m[k].depth);
    FewerDeeper(Deeper(m, m[k].depth), Deeper(m, m[e].depth), k);
    d := NothingLeaks(h, m, k);
    BelowMember(h, m, d, k, e);
  }

  lemma FewerDeeper(a: set<Ptr>, b: set<Ptr>, k: Ptr)
    requires a <= b && k in b && k !in a
    ensures |a| < |b|
  {
    Smaller(a, b - {k});
  }

  lemma {:induction false} Smaller(a: set<Ptr>, b: set<Ptr>)
    requires a <= b
    ensures |a| <= |b|
    decreases |a|
  {
    if a != {} {
      var x :| x in a;
      Smaller(a - {x}, b - {x});
    }
  }
}
