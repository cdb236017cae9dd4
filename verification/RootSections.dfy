/** Registration of root sections from the memory map (src/gc-7.2/dyn_load.c:243-368): the hand-written
    sort of the collector's own sections, and each mapping without them. */
module RootSections {
  datatype HeapSect = HeapSect(start: nat, bytes: nat)

  datatype Mapping = Mapping(start: nat, end: nat, writable: bool)

  predicate Ascending(s: seq<HeapSect>) {
    forall i, j | 0 <= i < j < |s| :: s[i].start <= s[j].start
  }

  /** `sort_heap_sects`: insertion that goes quickly over what is sorted already. */
  method SortHeapSects(base: array<HeapSect>)
    modifies base
    ensures Ascending(base[..]) && multiset(base[..]) == multiset(old(base[..]))
  {
    var n := base.Length;
    var nsorted := 1;
    while nsorted < n
      invariant 1 <= nsorted && (nsorted <= n || n == 0)
      invariant nsorted <= n ==> Ascending(base[..nsorted])
      invariant multiset(base[..]) == multiset(old(base[..]))
    {
      while nsorted < n && base[nsorted - 1].start < base[nsorted].start
        invariant 1 <= nsorted <= n && Ascending(base[..nsorted])
      {
        nsorted := nsorted + 1;
      }
      if nsorted == n { break; }
      Insert(base, nsorted);
      nsorted := nsorted + 1;
    }
    assert n > 0 ==> base[..n] == base[..];
  }

  /** The element behind a sorted stretch moves down by swaps to its place. */
  method Insert(base: array<HeapSect>, nsorted: nat)
    requires 1 <= nsorted < base.Length && Ascending(base[..nsorted])
    modifies base
    ensures Ascending(base[..nsorted + 1]) && multiset(base[..]) == multiset(old(base[..]))
  {
    var i: int := nsorted - 1;
    while i >= 0 && base[i].start > base[i + 1].start
      invariant -1 <= i < nsorted
      invariant forall p, q | 0 <= p < q <= nsorted && p != i + 1 && q != i + 1 :: base[p].start <= base[q].start
      invariant forall q | i + 1 < q <= nsorted :: base[i + 1].start <= base[q].start
      invariant multiset(base[..]) == multiset(old(base[..]))
    {
      Swap(base, i);
      i := i - 1;
    }
  }

  method Swap(base: array<HeapSect>, i: nat)
    requires i + 1 < base.Length
    modifies base
    ensures base[..] == old(base[..])[i := old(base[i + 1])][i + 1 := old(base[i])]
    ensures multiset(base[..]) == multiset(old(base[..]))
  {
    var tmp := base[i];
    base[i] := base[i + 1];
    base[i + 1] := tmp;
  }

  // ---- Sections that lie apart ----

  predicate Within(s: HeapSect, x: nat) {
    s.start <= x < s.start + s.bytes
  }

  predicate Separate(s: HeapSect, t: HeapSect) {
    s.start + s.bytes <= t.start || t.start + t.bytes <= s.start
  }

  /** The collector's sections: not empty, listed once, and apart from each other. */
  predicate Sections(s: seq<HeapSect>) {
    && (forall i | 0 <= i < |s| :: s[i].bytes > 0)
    && forall i, j | 0 <= i < j < |s| :: Separate(s[i], s[j])
  }

  /** ... in the order of their addresses. */
  predicate InOrder(s: seq<HeapSect>) {
    && (forall i | 0 <= i < |s| :: s[i].bytes > 0)
    && forall i, j | 0 <= i < j < |s| :: s[i].start + s[i].bytes <= s[j].start
  }

  lemma CountTwice(s: seq<HeapSect>, i: nat, j: nat)
    requires i < j < |s| && s[i] == s[j]
    ensures multiset(s)[s[i]] >= 2
  {
    assert s == s[..j] + s[j..];
    assert s[..j][i] == s[i] && s[j..][0] == s[i];
    assert multiset(s[..j])[s[i]] >= 1 && multiset(s[j..])[s[i]] >= 1;
  }

  lemma {:induction false} CountOnce(s: seq<HeapSect>, x: HeapSect)
    requires forall i, j | 0 <= i < j < |s| :: s[i] != s[j]
    ensures multiset(s)[x] <= 1
  {
    if s != [] {
      var m := |s| - 1;
      assert s == s[..m] + [s[m]];
      CountOnce(s[..m], x);
      if s[m] == x { assert x !in s[..m]; }
    }
  }

  /** Sorting brings the sections in order. */
  lemma SortedInOrder(s: seq<HeapSect>, t: seq<HeapSect>)
    requires Sections(s) && multiset(t) == multiset(s) && Ascending(t)
    ensures InOrder(t)
  {
    forall i | 0 <= i < |t| ensures t[i].bytes > 0 && t[i] in s {
      assert t[i] in multiset(t);
    }
    forall i, j | 0 <= i < j < |t| ensures t[i].start + t[i].bytes <= t[j].start {
      forall k, l | 0 <= k < l < |s| ensures s[k] != s[l] { assert Separate(s[k], s[l]); }
      CountOnce(s, t[i]);
      if t[i] == t[j] { CountTwice(t, i, j); }
      var k :| 0 <= k < |s| && s[k] == t[i];
      var l :| 0 <= l < |s| && s[l] == t[j];
      assert if k < l then Separate(s[k], s[l]) else Separate(s[l], s[k]);
    }
  }

  // ---- One mapping ----

  predicate Covers(roots: seq<(nat, nat)>, x: nat) {
    exists k :: 0 <= k < |roots| && roots[k].0 <= x < roots[k].1
  }

  predicate Owned(s: seq<HeapSect>, x: nat) {
    exists i :: 0 <= i < |s| && Within(s[i], x)
  }

  lemma CoversMore(roots: seq<(nat, nat)>, a: nat, b: nat, x: nat)
    ensures Covers(roots + [(a, b)], x) <==> Covers(roots, x) || a <= x < b
  {
    if Covers(roots, x) {
      var k :| 0 <= k < |roots| && roots[k].0 <= x < roots[k].1;
      assert (roots + [(a, b)])[k] == roots[k];
    }
    if a <= x < b { assert (roots + [(a, b)])[|roots|] == (a, b); }
  }

  /** A writable mapping that is not the stack is registered as far as it is not the collector's own. */
  predicate ToRegister(m: Mapping, stackBottom: nat, s: seq<HeapSect>, x: nat) {
    m.writable && !(m.start <= stackBottom <= m.end) && m.start <= x < m.end && !Owned(s, x)
  }

  /** The body of the loop of `GC_register_map_entries`. */
  method RegisterEntry(m: Mapping, stackBottom: nat, s: seq<HeapSect>, roots0: seq<(nat, nat)>)
    returns (roots: seq<(nat, nat)>)
    requires s != [] && InOrder(s)
    ensures roots0 <= roots
    ensures forall x: nat :: Covers(roots, x) <==> Covers(roots0, x) || ToRegister(m, stackBottom, s, x)
  {
    hide Covers;
    roots := roots0;
    var leastHa, greatestHa := s[0].start, s[|s| - 1].start + s[|s| - 1].bytes;
    if !m.writable || (m.start <= stackBottom && m.end >= stackBottom) { return; }
    if m.end <= leastHa || m.start >= greatestHa {
      roots := roots + [(m.start, m.end)];
      forall x: nat ensures Covers(roots, x) <==> Covers(roots0, x) || ToRegister(m, stackBottom, s, x) {
        CoversMore(roots0, m.start, m.end, x);
      }
      return;
    }
    var start, i := m.start, 0;
    while s[i].start + s[i].bytes < start
      invariant i < |s| && forall k | 0 <= k < i :: s[k].start + s[k].bytes < start
    {
      i := i + 1;
    }
    if s[i].start <= start {
      start := s[i].start + s[i].bytes;
      i := i + 1;
    }
    forall x: nat ensures Covers(roots, x) <==> Covers(roots0, x) || (x < start && ToRegister(m, stackBottom, s, x)) {
      if m.start <= x < start { assert Within(s[i - 1], x); }
    }
    while i < |s| && s[i].start < m.end && start < m.end
      invariant i <= |s| && roots0 <= roots && m.start <= start
      invariant forall k | 0 <= k < i :: s[k].start + s[k].bytes <= start
      invariant i > 0 || start == m.start
      invariant i == |s| || start <= s[i].start
      invariant forall x: nat :: Covers(roots, x) <==>
                  Covers(roots0, x) || (x < start && ToRegister(m, stackBottom, s, x))
      decreases |s| - i
    {
      ghost var before, from := roots, start;
      if start < s[i].start { roots := roots + [(start, s[i].start)]; }
      start := s[i].start + s[i].bytes;
      forall x: nat ensures Covers(roots, x) <==> Covers(roots0, x) || (x < start && ToRegister(m, stackBottom, s, x)) {
        CoversMore(before, from, s[i].start, x);
        if from <= x < s[i].start { Gap(s, i, x); }
        if s[i].start <= x < start { assert Within(s[i], x); }
      }
      i := i + 1;
    }
    ghost var before, from := roots, start;
    if start < m.end { roots := roots + [(start, m.end)]; }
    forall x: nat ensures Covers(roots, x) <==> Covers(roots0, x) || ToRegister(m, stackBottom, s, x) {
      CoversMore(before, from, m.end, x);
      if from <= x < m.end { Gap(s, i, x); }
    }
  }

  /** Between two neighbouring sections, nothing is owned. */
  lemma Gap(s: seq<HeapSect>, i: nat, x: nat)
    requires InOrder(s) && i <= |s| && (i < |s| ==> x < s[i].start)
    requires forall k | 0 <= k < i :: s[k].start + s[k].bytes <= x
    ensures !Owned(s, x)
  {
  }

  /** Some mapping has the address to be registered. */
  ghost predicate SomeRegisters(maps: seq<Mapping>, stackBottom: nat, s: seq<HeapSect>, x: nat) {
    exists j :: 0 <= j < |maps| && ToRegister(maps[j], stackBottom, s, x)
  }

  lemma OneMoreMapping(maps: seq<Mapping>, j: nat, stackBottom: nat, s: seq<HeapSect>, x: nat)
    requires j < |maps|
    ensures SomeRegisters(maps[..j + 1], stackBottom, s, x) <==>
            SomeRegisters(maps[..j], stackBottom, s, x) || ToRegister(maps[j], stackBottom, s, x)
  {
    hide ToRegister;
    if SomeRegisters(maps[..j], stackBottom, s, x) {
      var k :| 0 <= k < j && ToRegister(maps[..j][k], stackBottom, s, x);
      assert maps[..j + 1][k] == maps[..j][k];
    }
    if ToRegister(maps[j], stackBottom, s, x) { assert maps[..j + 1][j] == maps[j]; }
  }

  /** The loop over the memory map. */
  method RegisterMaps(s: seq<HeapSect>, maps: seq<Mapping>, stackBottom: nat) returns (roots: seq<(nat, nat)>)
    requires s != [] && InOrder(s)
    ensures forall x: nat :: Covers(roots, x) <==> SomeRegisters(maps, stackBottom, s, x)
  {
    hide ToRegister, InOrder, Covers, SomeRegisters;
    roots := [];
    var j := 0;
    NothingYet(maps, stackBottom, s);
    while j < |maps|
      invariant j <= |maps|
      invariant forall x: nat :: Covers(roots, x) <==> SomeRegisters(maps[..j], stackBottom, s, x)
    {
      forall x: nat
        ensures SomeRegisters(maps[..j + 1], stackBottom, s, x) <==>
                SomeRegisters(maps[..j], stackBottom, s, x) || ToRegister(maps[j], stackBottom, s, x)
      {
        OneMoreMapping(maps, j, stackBottom, s, x);
      }
      roots := RegisterEntry(maps[j], stackBottom, s, roots);
      j := j + 1;
    }
    assert maps[..j] == maps;
  }

  lemma NothingYet(maps: seq<Mapping>, stackBottom: nat, s: seq<HeapSect>)
    ensures forall x: nat :: !Covers([], x) && !SomeRegisters(maps[..0], stackBottom, s, x)
  {
  }

  /** `GC_register_map_entries`: the sections are sorted, then every mapping is registered as far as it is
      to be. */
  method RegisterMapEntries(ourMemory: array<HeapSect>, maps: seq<Mapping>, stackBottom: nat)
    returns (roots: seq<(nat, nat)>)
    requires ourMemory.Length > 0 && Sections(ourMemory[..])
    modifies ourMemory
    ensures multiset(ourMemory[..]) == multiset(old(ourMemory[..])) && InOrder(ourMemory[..])
    ensures forall x: nat :: Covers(roots, x) <==> SomeRegisters(maps, stackBottom, old(ourMemory[..]), x)
  {
    hide Sections, InOrder, Ascending, Covers;
    ghost var s := ourMemory[..];
    SortHeapSects(ourMemory);
    SortedInOrder(s, ourMemory[..]);
    roots := RegisterMaps(ourMemory[..], maps, stackBottom);
    forall x: nat ensures Owned(ourMemory[..], x) <==> Owned(s, x) { SameOwned(s, ourMemory[..], x); }
  }

  lemma SameOwned(s: seq<HeapSect>, t: seq<HeapSect>, x: nat)
    requires multiset(s) == multiset(t)
    ensures Owned(s, x) <==> Owned(t, x)
  {
    forall i | 0 <= i < |s| && Within(s[i], x) ensures Owned(t, x) { assert s[i] in multiset(t); }
    forall i | 0 <= i < |t| && Within(t[i], x) ensures Owned(s, x) { assert t[i] in multiset(s); }
  }
}
