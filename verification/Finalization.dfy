/** Finalization (src/gc-7.2/finalize.c:68-92, 245-470, 522-735): which unreachable objects are enqueued
    for finalization, and what is kept for their finalizers. */
module Finalization {
  import opened Marking
  import opened HashChains
  import opened DisappearingLinks
  import opened Wrappers

  /** `sizeof(struct finalizable_object)` */
  const FO_SIZE := 48

  function Elems(chain: seq<Entry>): set<Entry> {
    set e | e in chain
  }

  function SizeOf(e: Entry): nat
    reads e`info
  {
    if e.info.Finalizer? then e.info.size + FO_SIZE else 0
  }

  /** `GC_bytes_finalized` for the entries of a list. */
  ghost function Sizes(chain: seq<Entry>): nat
    reads Elems(chain)`info
  {
    if chain == [] then 0 else SizeOf(chain[0]) + Sizes(chain[1..])
  }

  /** An entry of the table, where its object is hidden from the collector. */
  ghost predicate Waiting(heap: Heap, e: Entry)
    reads e`info, e`key
  {
    e.info.Finalizer? && Hide(e.key) in heap
  }

  /** An entry of the queue, where its object is visible. */
  ghost predicate Enqueued(heap: Heap, e: Entry)
    reads e`info, e`key
  {
    e.info.Finalizer? && e.key in heap
  }

  /** What is marked on behalf of a waiting entry. */
  ghost predicate Guards(heap: Heap, e: Entry, y: Obj)
    reads e`info, e`key
  {
    Waiting(heap, e) && Protects(heap, e.info.proc, Hide(e.key), y)
  }

  class Finalizers {
    /** `GC_java_finalization` */
    const java: bool
    const links: LinkTable
    /** The finalizable objects. */
    const objs: HashTable
    var heap: Heap
    var marks: set<Obj>
    /** `GC_finalize_now` */
    var queue: Entry?
    var bytesFinalized: int
    var needUnreachable: bool
    ghost var queued: seq<Entry>

    constructor (java: bool)
      ensures Valid() && queued == [] && objs.Members() == {} && this.java == java
    {
      this.java := java;
      links := new LinkTable(map[], map[]);
      objs := new HashTable();
      heap, marks, queue, queued, bytesFinalized, needUnreachable := map[], {}, null, [], 0, false;
    }

    /** The table, the mark bits and the queue, each by itself. */
    ghost predicate ObjectsOk()
      reads this, objs, objs.heads, objs.Members()
    {
      && objs.Valid() && (forall e | e in objs.Members() :: Waiting(heap, e))
      && WellFormed(heap) && marks <= heap.Keys
    }

    ghost predicate QueueOk()
      reads this`heap, this`queue, this`queued, Elems(queued)`next, Elems(queued)`key, Elems(queued)`info
    {
      Chained(queue, queued) && forall e | e in queued :: Enqueued(heap, e)
    }

    ghost predicate Valid()
      reads this, objs, objs.heads, objs.Members(), Elems(queued), links, links.table, links.table.heads,
        links.table.Members()
    {
      && TablesOk() && links.Valid()
      && links.table != objs && links.table.heads != objs.heads
      && links.table.Members() !! objs.Members() && links.table.Members() !! Elems(queued)
      && (!needUnreachable ==> forall e | e in objs.Members() :: !e.info.proc.Unreachable?)
      && (!needUnreachable ==> forall e | e in queued :: !e.info.proc.Unreachable?)
    }

    /** The second pass at one entry. */
    method MarkBehindEntry(entry: Entry)
      requires ObjectsOk() && Closed(heap, marks) && entry in objs.Members()
      modifies this`marks
      ensures ObjectsOk() && Closed(heap, marks) && old(marks) <= marks
      ensures forall y | Guards(heap, entry, y) :: y in marks
      ensures forall y | y in marks && y !in old(marks) :: Hide(entry.key) !in old(marks) && Guards(heap, entry, y)
    {
      hide HashTable.Valid, Closed, Protects, WellFormed, Hide;
      assert Waiting(heap, entry);
      var obj := Hide(entry.key);
      if obj !in marks {
        var marks' := MarkFrom(heap, marks, obj, entry.info.proc);
        marks := marks';
      } else {
        forall y | Guards(heap, entry, y) ensures y in marks {
          ProtectedIsMarked(heap, marks, entry.info.proc, obj, y);
        }
      }
    }

    /** The second pass of `GC_finalize`: everything behind unmarked finalizable objects is marked, as
        their mark procedures have it. */
    method MarkBehindObjects()
      requires ObjectsOk() && Closed(heap, marks)
      modifies this`marks
      ensures ObjectsOk() && Closed(heap, marks) && old(marks) <= marks && Guarded(old(Bases()), old(marks), marks)
      ensures OnlyGuarded(old(Bases()), old(marks), marks)
      ensures forall y | y in marks && y !in old(marks) ::
                exists e :: e in objs.Members() && Hide(e.key) !in old(marks) && Guards(heap, e, y)
    {
      hide HashTable.Valid, HashTable.Walk, HashTable.Ahead, Closed, Protects, WellFormed, Hide;
      var i := 0;
      ghost var left: set<Entry> := objs.Members();
      objs.WalkStarts();
      while i < objs.heads.Length
        invariant i <= objs.heads.Length && ObjectsOk() && Closed(heap, marks) && objs.Ahead(i, left)
        invariant old(marks) <= marks && left <= objs.Members()
        invariant forall e, y | e in objs.Members() - left && Hide(e.key) !in old(marks) && Guards(heap, e, y) ::
                    y in marks
        invariant forall y | y in marks && y !in old(marks) ::
                    exists e :: e in objs.Members() && Hide(e.key) !in old(marks) && Guards(heap, e, y)
      {
        objs.ChainStarts(i, left);
        var curr := objs.heads[i];
        ghost var prev: Entry? := null;
        ghost var k := 0;
        while curr != null
          invariant ObjectsOk() && Closed(heap, marks) && objs.Walk(i, k, prev, curr, left)
          invariant old(marks) <= marks && left <= objs.Members()
          invariant forall e, y | e in objs.Members() - left && Hide(e.key) !in old(marks) && Guards(heap, e, y) ::
                      y in marks
          invariant forall y | y in marks && y !in old(marks) ::
                      exists e :: e in objs.Members() && Hide(e.key) !in old(marks) && Guards(heap, e, y)
          decreases objs.Length(i) - k
        {
          var entry: Entry := curr;
          objs.Here(i, k, prev, entry, left);
          MarkBehindEntry(entry);
          objs.NextEntry(i, k, prev, entry, left);
          curr := entry.next;
          prev, k, left := entry, k + 1, left - {entry};
        }
        objs.ChainEnds(i, k, prev, left);
        i := i + 1;
      }
      objs.WalkEnds(left);
      BehindIsGuarded(old(marks));
    }

    lemma BehindIsGuarded(marks0: set<Obj>)
      requires forall y | y in marks && y !in marks0 ::
                 exists e :: e in objs.Members() && Hide(e.key) !in marks0 && Guards(heap, e, y)
      ensures OnlyGuarded(Bases(), marks0, marks)
    {
      hide Protects, Hide;
      forall y | y in marks && y !in marks0 ensures exists f :: f in Bases() && GuardedBy(Bases(), marks0, f, y) {
        var e :| e in objs.Members() && Hide(e.key) !in marks0 && Guards(heap, e, y);
        assert e in Bases() && GuardedBy(Bases(), marks0, e, y);
      }
    }

    /** The move of an entry from the table, which it has left, to the head of the queue. */
    method PushQueue(e: Entry)
      requires QueueOk() && Waiting(heap, e) && e !in queued
      modifies this`queue, this`queued, this`bytesFinalized, e`next, e`key
      ensures QueueOk() && queued == [e] + old(queued) && e.key == Hide(old(e.key))
      ensures bytesFinalized == old(bytesFinalized) + SizeOf(e)
    {
      hide Chained;
      e.next := queue;
      ChainedPushed(queue, queued, e);
      queue := e;
      e.key := Hide(e.key);
      bytesFinalized := bytesFinalized + e.info.size + FO_SIZE;
      queued := [e] + queued;
    }

    /** The third pass has dealt with all entries but those of `left`: the entries `newly` went to the
        queue, the others stay. `base` has the objects of all entries, `marks0` and `queued0` are from
        before the pass. */
    ghost predicate Sorting(base: map<Entry, Word>, marks0: set<Obj>, queued0: seq<Entry>, newly: seq<Entry>,
                            left: set<Entry>)
      reads this, objs, objs.Members(), Elems(queued), Elems(newly)
    {
      && QueueOk() && QueueSorted(base, marks0, queued0, newly) && TableSorted(base, left)
      && objs.Members() !! Elems(queued) && objs.Members() + Elems(newly) == base.Keys
      && marks == marks0 + (if java then {} else set e | e in newly && e in base :: base[e])
    }

    /** The entries that went to the queue had unmarked objects. */
    ghost predicate QueueSorted(base: map<Entry, Word>, marks0: set<Obj>, queued0: seq<Entry>, newly: seq<Entry>)
      reads this`queued, this`bytesFinalized, Elems(newly)`key, Elems(newly)`info
    {
      && queued == newly + queued0 && bytesFinalized == Sizes(newly)
      && forall e | e in newly :: e in base && e.key == base[e] && base[e] !in marks0
    }

    /** The entries that stay have marked objects, but for those of `left`. */
    ghost predicate TableSorted(base: map<Entry, Word>, left: set<Entry>)
      reads this`heap, this`marks, objs`chains, objs.Members()`key, objs.Members()`info
    {
      && left <= objs.Members()
      && (forall e | e in objs.Members() :: e in base && Hide(e.key) == base[e] && Waiting(heap, e))
      && (forall e | e in objs.Members() && e !in left :: e in base && base[e] in marks)
    }

    /** An unmarked object: its entry leaves the table for the queue. */
    method EnqueueEntry(i: nat, ghost k: nat, prev: Entry?, entry: Entry, ghost left: set<Entry>,
                        ghost base: map<Entry, Word>, ghost marks0: set<Obj>, ghost queued0: seq<Entry>,
                        ghost newly: seq<Entry>)
      returns (next: Entry?)
      requires objs.Valid() && objs.Walk(i, k, prev, entry, left) && Sorting(base, marks0, queued0, newly, left)
      requires Hide(entry.key) !in marks && (prev != null ==> prev in objs.Members()) && entry in left
      modifies this`marks, this`queue, this`queued, this`bytesFinalized
      modifies objs`chains, objs`entries, objs.heads, objs.Members()`next, objs.Members()`key
      ensures objs.Valid() && objs.Walk(i, k, prev, next, left - {entry}) && objs.Length(i) < old(objs.Length(i))
      ensures Sorting(base, marks0, queued0, [entry] + newly, left - {entry}) && objs.Members() < old(objs.Members())
    {
      hide HashTable.Valid, HashTable.Walk, QueueOk, Sizes, All, TableSorted, Hide, Waiting, SizeOf, HashTable.Length;
      EntryFacts(entry, left, base);
      ElemsIn(queued);
      ElemsIn(newly);
      MovedBack(Elems(newly), objs.Members(), entry);
      next := LeaveTable(i, k, prev, entry, left, base);
      PushQueue(entry);
      ElemsIn(queued);
      ElemsPushed(newly, entry);
    }

    lemma EntryFacts(entry: Entry, left: set<Entry>, base: map<Entry, Word>)
      requires TableSorted(base, left) && entry in left
      ensures entry in objs.Members() && entry in base && Hide(entry.key) == base[entry] && Waiting(heap, entry)
    {
    }

    /** The part of it that concerns the table and the marks. */
    method LeaveTable(i: nat, ghost k: nat, prev: Entry?, entry: Entry, ghost left: set<Entry>,
                      ghost base: map<Entry, Word>)
      returns (next: Entry?)
      requires objs.Valid() && objs.Walk(i, k, prev, entry, left) && TableSorted(base, left)
      requires (prev != null ==> prev in objs.Members()) && entry in left
      modifies this`marks, objs`chains, objs`entries, objs.heads, objs.Members()`next
      ensures objs.Valid() && objs.Walk(i, k, prev, next, left - {entry}) && objs.Length(i) < old(objs.Length(i))
      ensures objs.Members() == old(objs.Members()) - {entry} && TableSorted(base, left - {entry})
      ensures marks == old(marks) + (if java then {} else {Hide(entry.key)})
    {
      hide HashTable.Valid, HashTable.Walk, Hide;
      if !java { marks := marks + {Hide(entry.key)}; }
      next := objs.Drop(i, k, prev, entry, left);
    }

    lemma KeepEntry(entry: Entry, left: set<Entry>, base: map<Entry, Word>, marks0: set<Obj>, queued0: seq<Entry>,
                    newly: seq<Entry>)
      requires Sorting(base, marks0, queued0, newly, left) && entry in left && Hide(entry.key) in marks
      ensures Sorting(base, marks0, queued0, newly, left - {entry})
    {
      hide QueueOk, QueueSorted;
    }

    /** The third pass of `GC_finalize`: what is still unmarked goes to the queue. */
    method EnqueueDead() returns (ghost newly: seq<Entry>)
      requires objs.Valid() && QueueOk() && objs.Members() !! Elems(queued)
      requires forall e | e in objs.Members() :: Waiting(heap, e)
      modifies this`marks, this`queue, this`queued, this`bytesFinalized
      modifies objs`chains, objs`entries, objs.heads, objs.Members()`next, objs.Members()`key
      ensures objs.Valid() && Sorting(old(Bases()), old(marks), old(queued), newly, {}) &&
                objs.Members() <= old(objs.Members())
    {
      hide HashTable.Valid, HashTable.Walk, HashTable.Ahead, Sorting;
      ghost var left: set<Entry>, base, marks0, queued0 := objs.Members(), Bases(), marks, queued;
      bytesFinalized := 0;
      newly := [];
      var i := 0;
      objs.WalkStarts();
      NoneSorted();
      while i < objs.heads.Length
        invariant i <= objs.heads.Length && objs.Valid() && objs.Ahead(i, left) && objs.Members() <= old(objs.Members())
        invariant Sorting(base, marks0, queued0, newly, left)
      {
        objs.ChainStarts(i, left);
        var curr := objs.heads[i];
        var prev: Entry? := null;
        ghost var k := 0;
        while curr != null
          invariant objs.Valid() && objs.Walk(i, k, prev, curr, left) && objs.Members() <= old(objs.Members())
          invariant Sorting(base, marks0, queued0, newly, left)
          decreases objs.Length(i) - k
        {
          var entry: Entry := curr;
          objs.Here(i, k, prev, entry, left);
          if Hide(entry.key) !in marks {
            curr := EnqueueEntry(i, k, prev, entry, left, base, marks0, queued0, newly);
            newly := [entry] + newly;
          } else {
            KeepEntry(entry, left, base, marks0, queued0, newly);
            objs.NextEntry(i, k, prev, entry, left);
            curr := entry.next;
            prev, k := entry, k + 1;
          }
          left := left - {entry};
        }
        objs.ChainEnds(i, k, prev, left);
        i := i + 1;
      }
      objs.WalkEnds(left);
    }

    /** The objects of the entries of the table. */
    ghost function Bases(): map<Entry, Word>
      reads objs`chains, objs.Members()`key
    {
      map e | e in objs.Members() :: Hide(e.key)
    }

    lemma NoneSorted()
      requires QueueOk() && objs.Members() !! Elems(queued) && bytesFinalized == 0
      requires forall e | e in objs.Members() :: Waiting(heap, e)
      ensures Sorting(Bases(), marks, queued, [], objs.Members())
    {
    }

    /** What has been marked on behalf of the queue: unmarked objects and what they lead to, but for those to
        be finalized only when nothing else leads to them. */
    ghost predicate MarkedByQueue(before: set<Obj>, after: set<Obj>)
      reads this`heap, this`queued, Elems(queued)`key, Elems(queued)`info
    {
      forall y | y in after && y !in before :: exists e :: e in queued && MarkedFor(heap, before, e, y)
    }

    lemma NothingMarked(before: set<Obj>)
      ensures MarkedByQueue(before, before)
    {
    }

    lemma MoreMarked(before: set<Obj>, marks1: set<Obj>, marks2: set<Obj>, e: Entry)
      requires MarkedByQueue(before, marks1) && e in queued && before <= marks1 && e.info.Finalizer?
      requires forall y | y in marks2 && y !in marks1 ::
                 e.key !in marks1 && !e.info.proc.Unreachable? && (y == e.key || Reaches(heap, e.key, y))
      ensures MarkedByQueue(before, marks2)
    {
      hide Reaches;
      forall y | y in marks2 && y !in before ensures exists f :: f in queued && MarkedFor(heap, before, f, y) {
        if y !in marks1 { assert MarkedFor(heap, before, e, y); }
      }
    }

    /** One entry of the queue, at position `k`. */
    method MarkQueueEntry(entry: Entry, ghost k: nat, ghost before: set<Obj>)
      requires QueueOk() && WellFormed(heap) && before <= marks <= heap.Keys && Closed(heap, marks)
      requires k < |queued| && entry == queued[k] && MarkedByQueue(before, marks)
      requires forall e | e in queued :: Covered(heap, marks, e.info.proc, e.key)
      requires forall l | 0 <= l < k :: queued[l].info.Finalizer? &&
                 Settled(heap, marks, queued[l].info.proc, queued[l].key)
      modifies this`marks
      ensures old(marks) <= marks <= heap.Keys && Closed(heap, marks) && MarkedByQueue(before, marks)
      ensures forall e | e in queued :: Covered(heap, marks, e.info.proc, e.key)
      ensures forall l | 0 <= l < k + 1 :: queued[l].info.Finalizer? &&
                 Settled(heap, marks, queued[l].info.proc, queued[l].key)
    {
      hide Chained, Closed, WellFormed, Covered, Settled, MarkedFor;
      QueueEntries();
      hide QueueOk;
      assert entry in queued;
      var marks' := MarkEntry(heap, marks, entry.key, entry.info.proc);
      MoreMarked(before, marks, marks', entry);
      forall e | e in queued ensures Covered(heap, marks', e.info.proc, e.key) {
        CoveredWider(heap, marks, marks', e.info.proc, e.key);
      }
      forall l | 0 <= l < k ensures Settled(heap, marks', queued[l].info.proc, queued[l].key) {
        SettledWider(heap, marks, marks', queued[l].info.proc, queued[l].key);
      }
      marks := marks';
    }

    /** With Java finalization, what queued objects lead to is marked, and so are they, except those to
        be finalized only when nothing else leads to them. */
    method MarkQueued()
      requires QueueOk() && WellFormed(heap) && marks <= heap.Keys && Closed(heap, marks)
      requires forall e | e in queued :: Covered(heap, marks, e.info.proc, e.key)
      modifies this`marks
      ensures old(marks) <= marks <= heap.Keys && Closed(heap, marks)
      ensures forall e | e in queued :: Settled(heap, marks, e.info.proc, e.key)
      ensures MarkedByQueue(old(marks), marks)
    {
      hide Chained, Closed, WellFormed, Covered, Settled, MarkedByQueue;
      QueueLinks();
      NothingMarked(marks);
      var curr := queue;
      ghost var k := 0;
      while curr != null
        invariant k <= |queued| && curr == At(queued, k)
        invariant old(marks) <= marks <= heap.Keys && Closed(heap, marks) && MarkedByQueue(old(marks), marks)
        invariant forall e | e in queued :: Covered(heap, marks, e.info.proc, e.key)
        invariant forall l | 0 <= l < k :: queued[l].info.Finalizer? &&
                    Settled(heap, marks, queued[l].info.proc, queued[l].key)
        decreases |queued| - k
      {
        var entry: Entry := curr;
        MarkQueueEntry(entry, k, old(marks));
        curr := entry.next;
        k := k + 1;
      }
    }

    /** Takes the entry `curr` behind `prev` out of the queue. */
    method UnlinkQueue(prev: Entry?, curr: Entry, ghost k: nat)
      requires QueueOk() && k < |queued| && curr == queued[k] && prev == At(queued, k - 1)
      modifies this`queue, this`queued, (if prev == null then {} else {prev})`next
      ensures QueueOk() && queued == Without(old(queued), k) && curr !in queued
      ensures Elems(queued) == Elems(old(queued)) - {curr}
    {
      if prev == null {
        UnlinkQueueFirst(curr);
      } else {
        UnlinkQueueBehind(prev, curr, k);
      }
    }

    method UnlinkQueueFirst(curr: Entry)
      requires QueueOk() && queued != [] && curr == queued[0]
      modifies this`queue, this`queued
      ensures QueueOk() && queued == Without(old(queued), 0) && curr !in queued
      ensures Elems(queued) == Elems(old(queued)) - {curr}
    {
      hide Chained, Once, Enqueued;
      QueueLinks();
      OnceWithout(queued, 0);
      ElemsWithout(queued, 0);
      ChainedTail(queue, queued);
      queue := curr.next;
      queued := Without(queued, 0);
    }

    method UnlinkQueueBehind(prev: Entry, curr: Entry, ghost k: nat)
      requires QueueOk() && 0 < k < |queued| && curr == queued[k] && prev == queued[k - 1]
      modifies this`queued, prev`next
      ensures QueueOk() && queued == Without(old(queued), k) && curr !in queued
      ensures Elems(queued) == Elems(old(queued)) - {curr}
    {
      hide Chained, Once, Enqueued, At;
      QueueLinks();
      ghost var before := queued;
      OnceWithout(queued, k);
      ElemsWithout(queued, k);
      prev.next := curr.next;
      Bypassed(queue, before, k);
      queued := Without(before, k);
    }

    /** Files an entry that has left the queue in the table again. */
    method Refile(e: Entry)
      requires objs.Valid() && objs.log >= 0 && e !in objs.Members() && Enqueued(heap, e)
      modifies this`bytesFinalized, objs`chains, objs`entries, objs.heads, e`next, e`key
      ensures objs.Valid() && objs.log == old(objs.log) && objs.Members() == old(objs.Members()) + {e}
      ensures Hide(e.key) == old(e.key) && Waiting(heap, e)
      ensures bytesFinalized == old(bytesFinalized) - SizeOf(e)
    {
      hide HashTable.Valid;
      e.key := Hide(e.key);
      bytesFinalized := bytesFinalized - (e.info.size + FO_SIZE);
      var i := objs.Push(e);
    }

    /** The revival has come to entry `k` of the queue. `base` has the objects of the entries that were
        queued, `marks0`, `members0` and `owed` are from before it. */
    ghost predicate Reviving(base: map<Entry, Word>, marks0: set<Obj>, members0: set<Entry>, owed: int, k: nat)
      reads this, objs, objs.Members(), Elems(queued)
    {
      && QueueOk() && (queued != [] ==> objs.log >= 0) && k <= |queued|
      && objs.Members() !! Elems(queued) && objs.Members() + Elems(queued) == members0 + base.Keys
      && bytesFinalized == owed + Sizes(queued)
      && marks0 <= marks <= heap.Keys && Closed(heap, marks)
      && RevivedTable(base, members0) && QueueLeft(base, marks0, k)
      && OnlyKept(queued, base, marks0, marks, k) && Returned(queued, base, marks0, members0, objs.Members(), k)
    }

    /** What came back to the table was marked and had no claim to be finalized. */
    ghost predicate RevivedTable(base: map<Entry, Word>, members0: set<Entry>)
      reads this`heap, this`marks, objs`chains, objs.Members()`key, objs.Members()`info
    {
      && members0 <= objs.Members()
      && (forall e | e in objs.Members() :: Waiting(heap, e))
      && (forall e | e in objs.Members() && e !in members0 ::
            e in base && Hide(e.key) == base[e] && base[e] in marks && e.info.proc.Unreachable?)
    }

    /** What is left in the queue; its first `k` entries have been looked at. */
    ghost predicate QueueLeft(base: map<Entry, Word>, marks0: set<Obj>, k: nat)
      requires k <= |queued|
      reads this`heap, this`marks, this`queued, Elems(queued)`key, Elems(queued)`info
    {
      && (forall e | e in queued ::
            e in base && e.key == base[e] && e.info.Finalizer? && Settled(heap, marks, e.info.proc, e.key))
      && (forall l | 0 <= l < k && queued[l].info.proc.Unreachable? :: queued[l].key !in marks0)
      && (forall l | 0 <= l < k :: queued[l].key in marks)
    }

    /** An object that something leads to: its entry leaves the queue for the table. */
    method SendBack(prev: Entry?, entry: Entry, ghost k: nat, ghost base: map<Entry, Word>, ghost marks0: set<Obj>,
                    ghost members0: set<Entry>, ghost owed: int)
      requires objs.Valid() && Reviving(base, marks0, members0, owed, k)
      requires k < |queued| && entry == queued[k] && prev == At(queued, k - 1)
      requires entry.info.Finalizer? && entry.info.proc.Unreachable? && entry.key in marks
      modifies this`queue, this`queued, this`bytesFinalized
      modifies objs`chains, objs`entries, objs.heads, Elems(queued)`next, Elems(queued)`key
      ensures objs.Valid() && Reviving(base, marks0, members0, owed, k) && queued == Without(old(queued), k)
    {
      hide HashTable.Valid, QueueOk, Closed, Sizes, Enqueued, All, RevivedTable, QueueLeft, OnlyKept, Returned;
      QueueEntries();
      assert entry in queued;
      LeftEntry(base, marks0, k, entry);
      SentBack(queued, base, marks0, marks, members0, objs.Members(), k);
      SizesWithout(queued, k);
      ElemsIn(queued);
      MovedBack(objs.Members(), Elems(queued), entry);
      TakeOut(prev, entry, k, base, marks0);
      ElemsIn(queued);
      TakeBack(entry, base, members0);
    }

    lemma LeftEntry(base: map<Entry, Word>, marks0: set<Obj>, k: nat, entry: Entry)
      requires k <= |queued| && QueueLeft(base, marks0, k) && entry in queued
      ensures entry in base && entry.key == base[entry]
    {
    }

    method TakeOut(prev: Entry?, entry: Entry, ghost k: nat, ghost base: map<Entry, Word>, ghost marks0: set<Obj>)
      requires QueueOk() && k < |queued| && QueueLeft(base, marks0, k) && entry == queued[k]
      requires prev == At(queued, k - 1)
      modifies this`queue, this`queued, Elems(queued)`next
      ensures QueueOk() && queued == Without(old(queued), k) && entry !in queued && k <= |queued|
      ensures Elems(queued) == Elems(old(queued)) - {entry} && QueueLeft(base, marks0, k)
    {
      hide QueueOk, Settled;
      UnlinkQueue(prev, entry, k);
    }

    method TakeBack(entry: Entry, ghost base: map<Entry, Word>, ghost members0: set<Entry>)
      requires objs.Valid() && objs.log >= 0 && entry !in objs.Members() && Enqueued(heap, entry)
      requires RevivedTable(base, members0) && entry in base && entry.key == base[entry]
      requires entry.key in marks && entry.info.proc.Unreachable?
      modifies this`bytesFinalized, objs`chains, objs`entries, objs.heads, entry`next, entry`key
      ensures objs.Valid() && objs.log == old(objs.log) && objs.Members() == old(objs.Members()) + {entry}
      ensures RevivedTable(base, members0) && bytesFinalized == old(bytesFinalized) - SizeOf(entry)
    {
      hide HashTable.Valid, Hide;
      Refile(entry);
    }

    /** One step of the revival. */
    method ReviveEntry(prev: Entry?, entry: Entry, ghost k: nat, ghost base: map<Entry, Word>, ghost marks0: set<Obj>,
                       ghost members0: set<Entry>, ghost owed: int) returns (kept: bool)
      requires objs.Valid() && Reviving(base, marks0, members0, owed, k)
      requires k < |queued| && entry == queued[k] && prev == At(queued, k - 1)
      modifies this`marks, this`queue, this`queued, this`bytesFinalized
      modifies objs`chains, objs`entries, objs.heads, Elems(queued)`next, Elems(queued)`key
      ensures objs.Valid() && Reviving(base, marks0, members0, owed, if kept then k + 1 else k)
      ensures if kept then queued == old(queued) else queued == Without(old(queued), k)
    {
      hide HashTable.Valid, QueueOk, Closed, Settled, OnlyKept, Returned;
      QueueEntries();
      assert entry in queued;
      SettledMeans(heap, marks, entry.info.proc, entry.key);
      kept := !entry.info.proc.Unreachable? || entry.key !in marks;
      if kept {
        ghost var marks' := if entry.key in marks then marks else marks + {entry.key};
        ScannedWider(heap, marks, marks + {entry.key}, entry.key);
        ClosedWith(heap, marks, entry.key);
        forall e | e in queued ensures Settled(heap, marks', e.info.proc, e.key) {
          SettledWider(heap, marks, marks', e.info.proc, e.key);
        }
        KeptNext(queued, base, marks0, marks, members0, objs.Members(), k);
        if entry.info.proc.Unreachable? { marks := marks + {entry.key}; }
      } else {
        SendBack(prev, entry, k, base, marks0, members0, owed);
      }
    }

    /** The objects of the entries of the queue. */
    ghost function QueueBases(): map<Entry, Word>
      reads this`queued, Elems(queued)`key
    {
      map e | e in queued :: e.key
    }

    /** Objects to be finalized only when nothing leads to them go back to the table if something does. */
    method Revive()
      requires objs.Valid() && QueueOk() && objs.Members() !! Elems(queued) && (queued != [] ==> objs.log >= 0)
      requires forall e | e in objs.Members() :: Waiting(heap, e)
      requires marks <= heap.Keys && Closed(heap, marks)
      requires forall e | e in queued :: Settled(heap, marks, e.info.proc, e.key)
      modifies this`marks, this`queue, this`queued, this`bytesFinalized
      modifies objs`chains, objs`entries, objs.heads, Elems(queued)`next, Elems(queued)`key
      ensures objs.Valid()
      ensures Reviving(old(QueueBases()), old(marks), old(objs.Members()), old(bytesFinalized - Sizes(queued)),
                |queued|)
    {
      hide HashTable.Valid, Reviving, QueueOk, Closed, Settled, Once;
      ghost var base, marks0, members0, owed := QueueBases(), marks, objs.Members(), bytesFinalized - Sizes(queued);
      var curr: Entry?, prev: Entry? := queue, null;
      ghost var k := 0;
      QueueLinks();
      RevivalStarts();
      while curr != null
        invariant objs.Valid() && Reviving(base, marks0, members0, owed, k) && QueueOk()
        invariant Elems(queued) <= base.Keys && k <= |queued|
        invariant curr == At(queued, k) && prev == At(queued, k - 1)
        decreases |queued| - k
      {
        var entry: Entry := curr;
        QueueLinks();
        var next := entry.next;
        ghost var before := queued;
        var kept := ReviveEntry(prev, entry, k, base, marks0, members0, owed);
        RevivingQueue(base, marks0, members0, owed, if kept then k + 1 else k);
        if kept {
          prev, k := entry, k + 1;
        }
        curr := next;
      }
    }

    lemma RevivingQueue(base: map<Entry, Word>, marks0: set<Obj>, members0: set<Entry>, owed: int, k: nat)
      requires Reviving(base, marks0, members0, owed, k)
      ensures QueueOk() && Elems(queued) <= base.Keys && k <= |queued|
    {
    }

    lemma RevivalStarts()
      requires QueueOk() && objs.Members() !! Elems(queued) && (queued != [] ==> objs.log >= 0)
      requires forall e | e in objs.Members() :: Waiting(heap, e)
      requires marks <= heap.Keys && Closed(heap, marks)
      requires forall e | e in queued :: Settled(heap, marks, e.info.proc, e.key)
      ensures Reviving(QueueBases(), marks, objs.Members(), bytesFinalized - Sizes(queued), 0)
    {
      hide Closed, Settled, Chained;
      assert QueueBases().Keys == Elems(queued);
    }

    /** No entry of the queue is about an object that will be reclaimed. */
    ghost predicate QueueMarked()
      reads this`marks, this`queued, Elems(queued)`key
    {
      forall e | e in queued :: e.key in marks
    }

    /** What the objects unmarked in `marks0` guard is marked in `marks1`. */
    ghost predicate Guarded(base: map<Entry, Word>, marks0: set<Obj>, marks1: set<Obj>)
      reads this`heap, base.Keys`info
    {
      forall f, y | f in base && base[f] !in marks0 && f.info.Finalizer? && Protects(heap, f.info.proc, base[f], y) ::
        y in marks1
    }

    /** The object of the entry `f` was unmarked and protects `y`. */
    ghost predicate GuardedBy(base: map<Entry, Word>, marks0: set<Obj>, f: Entry, y: Obj)
      reads this`heap, f`info
    {
      f in base && base[f] !in marks0 && f.info.Finalizer? && Protects(heap, f.info.proc, base[f], y)
    }

    /** The entry `e` is due to be queued: its object was unmarked, and no unmarked object protects it. */
    ghost predicate Due(base: map<Entry, Word>, marks0: set<Obj>, e: Entry)
      requires e in base
      reads this`heap, base.Keys`info
    {
      base[e] !in marks0 && forall f | f in base :: !GuardedBy(base, marks0, f, base[e])
    }

    /** Of the entries with the objects `now`, those that were not in `queued0` were due. */
    ghost predicate InOrder(now: map<Entry, Word>, base: map<Entry, Word>, marks0: set<Obj>, queued0: seq<Entry>)
      reads this`heap, base.Keys`info
    {
      forall e | e in now && e !in queued0 :: e in base && now[e] == base[e] && Due(base, marks0, e)
    }

    /** Everything marked since `marks0` is protected by an object that was unmarked. */
    ghost predicate OnlyGuarded(base: map<Entry, Word>, marks0: set<Obj>, marks1: set<Obj>)
      reads this`heap, base.Keys`info
    {
      forall y | y in marks1 && y !in marks0 :: exists f :: f in base && GuardedBy(base, marks0, f, y)
    }

    /** Another entry of the same object is queued instead, or with Java finalization one whose object leads
        to that of `e`, which is to be finalized only when nothing does. */
    ghost predicate Superseded(base: map<Entry, Word>, e: Entry)
      requires e in base
      reads this`heap, this`queued, e`info
    {
      exists f :: f in queued && f != e && f in base &&
        (base[f] == base[e] ||
         (java && e.info.Finalizer? && e.info.proc.Unreachable? && Reaches(heap, base[f], base[e])))
    }

    /** Every entry that was due is queued. */
    ghost predicate AllQueued(base: map<Entry, Word>, marks0: set<Obj>)
      reads this`heap, this`queued, base.Keys`info
    {
      forall e | e in base && Due(base, marks0, e) :: e in queued || Superseded(base, e)
    }

    /** Everything marked since `marks0` is protected by an object that was unmarked, is the object of a newly
        queued entry or, with Java finalization, is reached from one. */
    ghost predicate Explained(base: map<Entry, Word>, marks0: set<Obj>)
      reads this`heap, this`marks, this`queued, base.Keys`info
    {
      forall y | y in marks && y !in marks0 ::
        || (exists f :: f in base && GuardedBy(base, marks0, f, y))
        || exists f :: f in queued && f in base && (y == base[f] || (java && Reaches(heap, base[f], y)))
    }

    /** Due entries are queued, with their objects still unmarked; so is no other object of the queue. */
    ghost predicate Unmarked(now: map<Entry, Word>, base: map<Entry, Word>, marks0: set<Obj>, marks1: set<Obj>)
      reads this`heap, base.Keys`info
    {
      && (forall e | e in base && Due(base, marks0, e) :: e in now && now[e] == base[e] && base[e] !in marks1)
      && forall e | e in now && now[e] !in marks1 :: e in base && base[e] == now[e]
    }

    /** The third pass queues what is due. */
    lemma SortingExact(base: map<Entry, Word>, marks0: set<Obj>, marks1: set<Obj>, queued0: seq<Entry>,
                       newly: seq<Entry>)
      requires Sorting(base, marks1, queued0, newly, {}) && OnlyGuarded(base, marks0, marks1) && marks0 <= marks1
      requires forall e | e in queued0 :: e.key in marks0
      ensures AllQueued(base, marks0) && Explained(base, marks0)
      ensures java ==> OnlyGuarded(base, marks0, marks) && Unmarked(QueueBases(), base, marks0, marks)
    {
      hide Protects, Reaches, Chained, GuardedBy;
      forall e | e in base && Due(base, marks0, e)
        ensures base[e] !in marks1 && (e in newly || (!java && Superseded(base, e)))
      {
        if e !in newly {
          assert e in objs.Members() && base[e] in marks;
          var f :| f in newly && f in base && base[f] == base[e];
          assert f in queued;
        }
      }
      forall y | y in marks && y !in marks1 ensures !java && exists f :: f in queued && f in base && y == base[f] {
        var f :| f in newly && f in base && base[f] == y;
        assert f in queued;
      }
    }

    /** Marks are closed, but for objects queued without order. */
    ghost predicate AlmostClosed()
      reads this`heap, this`marks, this`queued, Elems(queued)`key, Elems(queued)`info
    {
      forall x | x in marks :: Scanned(heap, marks, x) ||
        exists e :: e in queued && e.key == x && e.info.Finalizer? && e.info.proc.NoOrder?
    }

    /** What the second and third pass have done. */
    lemma AfterSorting(base: map<Entry, Word>, marks0: set<Obj>, marks1: set<Obj>, queued0: seq<Entry>,
                       newly: seq<Entry>)
      requires Sorting(base, marks1, queued0, newly, {}) && Guarded(base, marks0, marks1)
      requires marks0 <= marks1 && Closed(heap, marks1)
      requires forall e | e in queued0 :: e.key in marks0
      ensures forall e | e in queued :: e.info.Finalizer? && Covered(heap, marks, e.info.proc, e.key)
      ensures InOrder(QueueBases(), base, marks0, queued0) && marks1 <= marks && AlmostClosed()
      ensures marks1 <= heap.Keys ==> marks <= heap.Keys
      ensures if java then marks == marks1 else QueueMarked()
    {
      hide Chained, Protects, Scanned;
      QueueEntries();
      forall e | e in newly ensures e in queued && Covered(heap, marks1, e.info.proc, e.key) {
        assert e in queued;
        GuardedCovered(heap, marks1, e.info.proc, e.key);
      }
      forall e | e in queued ensures Covered(heap, marks, e.info.proc, e.key) {
        if e in newly { CoveredWider(heap, marks1, marks, e.info.proc, e.key); } else { assert e in queued0; }
      }
      forall x | x in marks
        ensures
          || Scanned(heap, marks, x)
          || exists e :: e in queued && e.key == x && e.info.Finalizer? && e.info.proc.NoOrder?
      {
        ScannedWider(heap, marks1, marks, x);
        ScannedWider(heap, marks1 + {x}, marks, x);
        if x in marks1 {
          ClosedScanned(heap, marks1, x);
        } else {
          var e :| e in newly && base[e] == x;
        }
      }
    }

    /** The table and the queue as the passes leave them: apart, with every waiting object marked. */
    ghost predicate TablesOk()
      reads this, objs, objs.heads, objs.Members(), Elems(queued)
    {
      && ObjectsOk() && QueueOk() && objs.Members() !! Elems(queued) && (queued != [] ==> objs.log >= 0)
    }

    ghost predicate WaitingMarked()
      reads this`marks, objs`chains, objs.Members()`key
    {
      forall e | e in objs.Members() :: Hide(e.key) in marks
    }

    ghost predicate QueueCovered()
      reads this`heap, this`marks, this`queued, Elems(queued)`key, Elems(queued)`info
    {
      forall e | e in queued :: e.info.Finalizer? && Covered(heap, marks, e.info.proc, e.key)
    }

    /** The second and third pass of `GC_finalize`. */
    method SortUnreachable()
      requires TablesOk() && Closed(heap, marks) && QueueMarked()
      modifies this`marks, this`queue, this`queued, this`bytesFinalized
      modifies objs`chains, objs`entries, objs.heads, objs.Members()`next, objs.Members()`key
      ensures TablesOk() && QueueCovered() && WaitingMarked()
      ensures objs.Members() + Elems(queued) == old(objs.Members() + Elems(queued))
      ensures old(marks) <= marks && InOrder(QueueBases(), old(Bases()), old(marks), old(queued))
      ensures AlmostClosed() && if java then Closed(heap, marks) else QueueMarked()
      ensures AllQueued(old(Bases()), old(marks)) && Explained(old(Bases()), old(marks))
      ensures java ==> OnlyGuarded(old(Bases()), old(marks), marks) &&
                       Unmarked(QueueBases(), old(Bases()), old(marks), marks)
      ensures bytesFinalized == Sizes(queued) - old(Sizes(queued))
    {
      hide HashTable.Valid, QueueOk, Closed, WellFormed, Sorting, Guarded, InOrder, AlmostClosed, Covered, QueueBases,
        Sizes, Protects, Once, OnlyGuarded, AllQueued, Explained, Unmarked;
      ghost var base, marks0, queued0 := Bases(), marks, queued;
      objs.Sizes();
      MarkBehindObjects();
      ghost var marks1 := marks;
      ghost var newly := EnqueueDead();
      AfterSorting(base, marks0, marks1, queued0, newly);
      SortingExact(base, marks0, marks1, queued0, newly);
      SortingMembers(base, marks1, queued0, newly);
      SizesConcat(newly, queued0);
      assert newly != [] ==> newly[0] in base;
    }

    /** What Java finalization adds. */
    method SettleQueue()
      requires TablesOk() && Closed(heap, marks) && QueueCovered() && WaitingMarked()
      requires !needUnreachable ==> forall e | e in queued :: !e.info.proc.Unreachable?
      modifies this`marks, this`queue, this`queued, this`bytesFinalized, Elems(queued)`next, Elems(queued)`key
      modifies objs`chains, objs`entries, objs.heads
      ensures TablesOk() && WaitingMarked() && QueueMarked() && Closed(heap, marks) && old(marks) <= marks
      ensures objs.Members() + Elems(queued) == old(objs.Members() + Elems(queued)) &&
                Elems(queued) <= old(Elems(queued))
      ensures forall e | e in QueueBases() :: e in old(QueueBases()) && QueueBases()[e] == old(QueueBases())[e]
      ensures needUnreachable ==> OnlyWhenUnreachable()
      ensures Settles(old(QueueBases()), old(marks))
      ensures bytesFinalized - Sizes(queued) == old(bytesFinalized - Sizes(queued))
    {
      hide HashTable.Valid, QueueOk, Closed, WellFormed, Reviving, Settled, Covered, OnlyWhenUnreachable, Scanned,
        Settles, MarkedByQueue, OnlyMarks;
      ghost var now, marks1 := QueueBases(), marks;
      MarkQueued();
      AllSettled(heap, marks, queued);
      MarksOnly(now, marks1);
      if needUnreachable {
        ghost var marks2, members2, owed := marks, objs.Members(), bytesFinalized - Sizes(queued);
        Revive();
        AfterRevival(now, marks2, members2, owed);
        RevivalExact(now, marks1, marks2, members2, owed);
      } else {
        NoneReturned(now, marks1);
      }
    }

    /** The entry `f` is queued; its object was unmarked and is `y` or leads to it. */
    ghost predicate LedTo(now: map<Entry, Word>, marks1: set<Obj>, f: Entry, y: Obj)
      reads this`heap, this`queued
    {
      f in queued && f in now && now[f] !in marks1 && (y == now[f] || Reaches(heap, now[f], y))
    }

    /** What Java finalization marks, and which entries it sends back, if the queue had the objects `now`. */
    ghost predicate Settles(now: map<Entry, Word>, marks1: set<Obj>)
      reads this`heap, this`marks, this`queued, now.Keys`info
    {
      && (forall y | y in marks && y !in marks1 :: exists f :: f in now && LedTo(now, marks1, f, y))
      && forall e | e in now && e !in queued ::
           e.info.Finalizer? && e.info.proc.Unreachable? &&
           (now[e] in marks1 || exists f :: f in now && LedTo(now, marks1, f, now[e]))
    }

    /** Marked for entries that no revival sends back. */
    ghost predicate OnlyMarks(now: map<Entry, Word>, marks1: set<Obj>, marks2: set<Obj>)
      reads this`heap, now.Keys`info
    {
      forall y | y in marks2 && y !in marks1 ::
        exists f :: f in now && f.info.Finalizer? && !f.info.proc.Unreachable? && now[f] !in marks1 &&
                    (y == now[f] || Reaches(heap, now[f], y))
    }

    lemma MarksOnly(now: map<Entry, Word>, marks1: set<Obj>)
      requires MarkedByQueue(marks1, marks) && now == QueueBases()
      ensures OnlyMarks(now, marks1, marks)
    {
      hide Reaches;
      forall y | y in marks && y !in marks1
        ensures exists f :: f in now && f.info.Finalizer? && !f.info.proc.Unreachable? && now[f] !in marks1 &&
                  (y == now[f] || Reaches(heap, now[f], y))
      {
        var e :| e in queued && MarkedFor(heap, marks1, e, y);
        assert e in now;
      }
    }

    lemma NoneReturned(now: map<Entry, Word>, marks1: set<Obj>)
      requires OnlyMarks(now, marks1, marks) && now == QueueBases()
      ensures Settles(now, marks1)
    {
      hide Reaches;
      forall y | y in marks && y !in marks1 ensures exists f :: f in now && LedTo(now, marks1, f, y) {
        var f :| f in now && f.info.Finalizer? && !f.info.proc.Unreachable? && now[f] !in marks1 &&
          (y == now[f] || Reaches(heap, now[f], y));
        assert LedTo(now, marks1, f, y);
      }
    }

    /** The revival keeps all entries but those that something queued leads to. */
    lemma RevivalExact(now: map<Entry, Word>, marks1: set<Obj>, marks2: set<Obj>, members2: set<Entry>, owed: int)
      requires Reviving(now, marks2, members2, owed, |queued|) && OnlyMarks(now, marks1, marks2) && marks1 <= marks2
      requires members2 !! now.Keys
      ensures Settles(now, marks1)
    {
      hide Chained, Closed, Settled, Reaches, Sizes, OnlyMarks, OnlyKept, Returned, LedTo;
      forall e | e in now && e !in queued
        ensures e in objs.Members() && e !in members2 && e.info.Finalizer? && e.info.proc.Unreachable?
      {
        assert e in objs.Members() + Elems(queued);
      }
      forall y | y in marks && y !in marks1 ensures exists f :: f in now && LedTo(now, marks1, f, y) {
        MarkExplained(now, marks1, marks2, y);
      }
      forall e | e in now && e !in queued && now[e] !in marks1
        ensures exists f :: f in now && LedTo(now, marks1, f, now[e])
      {
        ReturnExplained(now, marks1, marks2, members2, e);
      }
    }

    lemma MarkExplained(now: map<Entry, Word>, marks1: set<Obj>, marks2: set<Obj>, y: Obj)
      requires OnlyKept(queued, now, marks2, marks, |queued|) && OnlyMarks(now, marks1, marks2) && marks1 <= marks2
      requires forall e | e in now && e !in queued :: e.info.Finalizer? && e.info.proc.Unreachable?
      requires y in marks && y !in marks1
      ensures exists f :: f in now && LedTo(now, marks1, f, y)
    {
      hide Reaches;
      if y in marks2 {
        var f :| f in now && f.info.Finalizer? && !f.info.proc.Unreachable? && now[f] !in marks1 &&
          (y == now[f] || Reaches(heap, now[f], y));
        assert LedTo(now, marks1, f, y);
      } else {
        var l :| l < |queued| && Kept(queued, now, l, y);
        assert LedTo(now, marks1, queued[l], y);
      }
    }

    lemma ReturnExplained(now: map<Entry, Word>, marks1: set<Obj>, marks2: set<Obj>, members2: set<Entry>, e: Entry)
      requires Returned(queued, now, marks2, members2, objs.Members(), |queued|)
      requires OnlyMarks(now, marks1, marks2) && marks1 <= marks2
      requires forall f | f in now && f !in queued :: f.info.Finalizer? && f.info.proc.Unreachable?
      requires e in now && e in objs.Members() && e !in members2 && now[e] !in marks1
      ensures exists f :: f in now && LedTo(now, marks1, f, now[e])
    {
      hide Reaches;
      if now[e] in marks2 {
        var f :| f in now && f.info.Finalizer? && !f.info.proc.Unreachable? && now[f] !in marks1 &&
          (now[e] == now[f] || Reaches(heap, now[f], now[e]));
        assert LedTo(now, marks1, f, now[e]);
      } else {
        var l :| l < |queued| && Kept(queued, now, l, now[e]);
        assert LedTo(now, marks1, queued[l], now[e]);
      }
    }

    /** All passes together. */
    lemma SettledExact(base: map<Entry, Word>, marks0: set<Obj>, now: map<Entry, Word>, marks1: set<Obj>)
      requires java && OnlyGuarded(base, marks0, marks1) && Unmarked(now, base, marks0, marks1) && Settles(now, marks1)
      ensures AllQueued(base, marks0) && Explained(base, marks0)
    {
      hide Reaches, Due, GuardedBy, LedTo;
      forall e | e in base && Due(base, marks0, e) ensures e in queued || Superseded(base, e) {
        if e !in queued {
          var f :| f in now && LedTo(now, marks1, f, now[e]);
          LedToBase(now, base, marks0, marks1, f, now[e]);
        }
      }
      forall y | y in marks && y !in marks0
        ensures
          || (exists f :: f in base && GuardedBy(base, marks0, f, y))
          || exists f :: f in queued && f in base && (y == base[f] || (java && Reaches(heap, base[f], y)))
      {
        if y !in marks1 {
          var f :| f in now && LedTo(now, marks1, f, y);
          LedToBase(now, base, marks0, marks1, f, y);
        }
      }
    }

    lemma LedToBase(now: map<Entry, Word>, base: map<Entry, Word>, marks0: set<Obj>, marks1: set<Obj>, f: Entry, y: Obj)
      requires Unmarked(now, base, marks0, marks1) && LedTo(now, marks1, f, y)
      ensures f in queued && f in base && (y == base[f] || Reaches(heap, base[f], y))
    {
      hide Reaches, Due;
    }

    /** The passes of `GC_finalize` over the finalizable objects. */
    method EnqueueUnreachable()
      requires TablesOk() && Closed(heap, marks) && QueueMarked()
      requires !needUnreachable ==> forall e | e in objs.Members() :: !e.info.proc.Unreachable?
      requires !needUnreachable ==> forall e | e in queued :: !e.info.proc.Unreachable?
      modifies this`marks, this`queue, this`queued, this`bytesFinalized, Elems(queued)`next, Elems(queued)`key
      modifies objs`chains, objs`entries, objs.heads, objs.Members()`next, objs.Members()`key
      ensures TablesOk() && objs.Members() + Elems(queued) == old(objs.Members() + Elems(queued))
      ensures old(marks) <= marks && QueueMarked() && WaitingMarked()
      ensures InOrder(QueueBases(), old(Bases()), old(marks), old(queued))
      ensures if java then Closed(heap, marks) else AlmostClosed()
      ensures java && needUnreachable ==> OnlyWhenUnreachable()
      ensures AllQueued(old(Bases()), old(marks)) && Explained(old(Bases()), old(marks))
      ensures !needUnreachable ==> forall e | e in objs.Members() :: !e.info.proc.Unreachable?
      ensures !needUnreachable ==> forall e | e in queued :: !e.info.proc.Unreachable?
      ensures bytesFinalized == Sizes(queued) - old(Sizes(queued))
    {
      hide ObjectsOk, QueueOk, Closed, InOrder, AlmostClosed, OnlyWhenUnreachable, QueueCovered, WaitingMarked,
        AllQueued, Explained, OnlyGuarded, Unmarked, Sizes;
      ghost var base, marks0, queued0 := Bases(), marks, queued;
      SortUnreachable();
      assert forall e | e in queued :: e in Elems(queued) && e in old(objs.Members() + Elems(queued));
      if java { SettleSorted(base, marks0, queued0); }
    }

    /** What Java finalization makes of the sorted entries. */
    method SettleSorted(ghost base: map<Entry, Word>, ghost marks0: set<Obj>, ghost queued0: seq<Entry>)
      requires java && TablesOk() && Closed(heap, marks) && QueueCovered() && WaitingMarked() && marks0 <= marks
      requires InOrder(QueueBases(), base, marks0, queued0) && OnlyGuarded(base, marks0, marks)
      requires Unmarked(QueueBases(), base, marks0, marks)
      requires !needUnreachable ==> forall e | e in queued :: !e.info.proc.Unreachable?
      modifies this`marks, this`queue, this`queued, this`bytesFinalized, Elems(queued)`next, Elems(queued)`key
      modifies objs`chains, objs`entries, objs.heads
      ensures TablesOk() && WaitingMarked() && QueueMarked() && Closed(heap, marks) && marks0 <= marks
      ensures objs.Members() + Elems(queued) == old(objs.Members() + Elems(queued)) &&
                Elems(queued) <= old(Elems(queued))
      ensures InOrder(QueueBases(), base, marks0, queued0) && AllQueued(base, marks0) && Explained(base, marks0)
      ensures needUnreachable ==> OnlyWhenUnreachable()
      ensures bytesFinalized - Sizes(queued) == old(bytesFinalized - Sizes(queued))
    {
      hide ObjectsOk, QueueOk, Closed, InOrder, OnlyWhenUnreachable, QueueCovered, WaitingMarked, AllQueued, Explained,
        OnlyGuarded, Unmarked, Settles, Sizes;
      ghost var now, marks1 := QueueBases(), marks;
      SettleQueue();
      StillInOrder(now, QueueBases(), base, marks0, queued0);
      SettledExact(base, marks0, now, marks1);
    }

    lemma StillInOrder(now: map<Entry, Word>, later: map<Entry, Word>, base: map<Entry, Word>, marks0: set<Obj>,
                       queued0: seq<Entry>)
      requires InOrder(now, base, marks0, queued0) && forall e | e in later :: e in now && later[e] == now[e]
      ensures InOrder(later, base, marks0, queued0)
    {
    }

    /** What the revival has done. */
    lemma AfterRevival(now: map<Entry, Word>, marks2: set<Obj>, members2: set<Entry>, owed: int)
      requires Reviving(now, marks2, members2, owed, |queued|)
      requires Closed(heap, marks2) && forall e | e in now :: Scanned(heap, marks2, now[e])
      ensures QueueOk() && objs.Members() !! Elems(queued) && objs.Members() + Elems(queued) == members2 + now.Keys
      ensures (queued != [] ==> objs.log >= 0) && bytesFinalized == owed + Sizes(queued)
      ensures marks2 <= marks <= heap.Keys && Closed(heap, marks) && QueueMarked()
      ensures forall e | e in objs.Members() :: Waiting(heap, e) && (e in members2 || Hide(e.key) in marks)
      ensures forall e | e in queued :: e in now && e.key == now[e]
      ensures OnlyWhenUnreachable()
    {
      hide Chained, Closed, Settled, Reaches;
      forall e, u | e in queued && u in queued && u.info.Finalizer? && u.info.proc.Unreachable?
        ensures !Reaches(heap, e.key, u.key)
      {
        if Reaches(heap, e.key, u.key) { BehindScanned(heap, marks2, e.key, u.key); }
      }
    }

    /** No object that is to be finalized only when nothing leads to it is queued with one that does. */
    ghost predicate OnlyWhenUnreachable()
      reads this`heap, this`queued, Elems(queued)`key, Elems(queued)`info
    {
      forall e, u | e in queued && u in queued && u.info.Finalizer? && u.info.proc.Unreachable? ::
        !Reaches(heap, e.key, u.key)
    }

    lemma SortingMembers(base: map<Entry, Word>, marks1: set<Obj>, queued0: seq<Entry>, newly: seq<Entry>)
      requires Sorting(base, marks1, queued0, newly, {})
      ensures QueueOk() && queued == newly + queued0 && objs.Members() !! Elems(queued)
      ensures objs.Members() + Elems(newly) == base.Keys && bytesFinalized == Sizes(newly)
      ensures objs.Members() + Elems(queued) == base.Keys + Elems(queued0)
      ensures forall e | e in objs.Members() :: Waiting(heap, e) && Hide(e.key) in marks
    {
    }

    /** `GC_finalize`, when all that the roots lead to is marked. */
    method Finalize()
      requires Valid() && Closed(heap, marks) && QueueMarked()
      modifies this`marks, this`queue, this`queued, this`bytesFinalized, Elems(queued)`next, Elems(queued)`key
      modifies objs`chains, objs`entries, objs.heads, objs.Members()`next, objs.Members()`key
      modifies links`words, links.table`chains, links.table`entries, links.table.heads, links.table.Members()`next
      ensures Valid() && bytesFinalized == Sizes(queued) - old(Sizes(queued))
      ensures objs.Members() + Elems(queued) == old(objs.Members() + Elems(queued))
      ensures old(marks) <= marks && QueueMarked() && WaitingMarked()
      ensures InOrder(QueueBases(), old(Bases()), old(marks), old(queued))
      ensures if java then Closed(heap, marks) else AlmostClosed()
      ensures java && needUnreachable ==> OnlyWhenUnreachable()
      ensures AllQueued(old(Bases()), old(marks)) && Explained(old(Bases()), old(marks))
      ensures links.Cleared(old(links.words), links.words, old(links.Dead(marks)))
      ensures links.table.Members() == set e | e in old(links.table.Members() - links.Dead(marks)) &&
                links.Held(e, marks)
    {
      hide Hide;
      hide HashTable.Valid, LinkTable.Valid, LinkTable.Cleared, LinkTable.Live, LinkTable.Held, TablesOk, Closed,
        InOrder, AlmostClosed, OnlyWhenUnreachable, WaitingMarked, QueueMarked, Sizes, QueueBases, AllQueued,
        Explained;
      ghost var base := Bases();
      links.ClearDead(marks);
      assert Bases() == base;
      EnqueueUnreachable();
      links.DropDangling(marks);
    }

    /** One entry of `GC_enqueue_all_finalizers`: all behind the object and the object itself are marked. */
    method EnqueueMarked(i: nat, ghost k: nat, prev: Entry?, entry: Entry, ghost left: set<Entry>)
      returns (next: Entry?)
      requires ObjectsOk() && QueueOk() && Closed(heap, marks) && objs.Members() !! Elems(queued)
      requires objs.Walk(i, k, prev, entry, left) && (prev != null ==> prev in objs.Members()) && entry in left
      requires left <= objs.Members()
      modifies this`marks, this`queue, this`queued, this`bytesFinalized
      modifies objs`chains, objs`entries, objs.heads, objs.Members()`next, objs.Members()`key
      ensures ObjectsOk() && QueueOk() && Closed(heap, marks) && old(marks) <= marks && entry.key in marks
      ensures objs.Walk(i, k, prev, next, left - {entry}) && objs.Length(i) < old(objs.Length(i))
      ensures objs.Members() == old(objs.Members()) - {entry} && queued == [entry] + old(queued)
      ensures bytesFinalized == old(bytesFinalized) + SizeOf(entry) && objs.log == old(objs.log)
    {
      hide HashTable.Valid, HashTable.Walk, Closed, WellFormed, Chained;
      var obj := Hide(entry.key);
      var marks' := MarkFrom(heap, marks, obj, Normal);
      ScannedWider(heap, marks', marks' + {obj}, obj);
      ClosedWith(heap, marks', obj);
      marks := marks' + {obj};
      next := objs.Drop(i, k, prev, entry, left);
      PushQueue(entry);
    }

    /** Part of the table has been flushed: the entries `newly` went to the queue, with their objects
        marked. */
    ghost predicate Flushing(members0: set<Entry>, marks0: set<Obj>, queued0: seq<Entry>, newly: seq<Entry>)
      reads this, objs, objs.heads, objs.Members(), Elems(queued), Elems(newly)
    {
      && ObjectsOk() && QueueOk() && Closed(heap, marks) && marks0 <= marks && QueueMarked()
      && objs.Members() !! Elems(queued) && objs.Members() + Elems(newly) == members0
      && queued == newly + queued0 && bytesFinalized == Sizes(newly)
    }

    method FlushEntry(i: nat, ghost k: nat, prev: Entry?, entry: Entry, ghost left: set<Entry>,
                      ghost members0: set<Entry>, ghost marks0: set<Obj>, ghost queued0: seq<Entry>,
                      ghost newly: seq<Entry>)
      returns (next: Entry?)
      requires Flushing(members0, marks0, queued0, newly) && left == objs.Members() && entry in left
      requires objs.Walk(i, k, prev, entry, left) && (prev != null ==> prev in objs.Members())
      modifies this`marks, this`queue, this`queued, this`bytesFinalized
      modifies objs`chains, objs`entries, objs.heads, objs.Members()`next, objs.Members()`key
      ensures Flushing(members0, marks0, queued0, [entry] + newly) && objs.Members() == left - {entry}
      ensures objs.Walk(i, k, prev, next, left - {entry}) && objs.Length(i) < old(objs.Length(i))
    {
      hide HashTable.Valid, HashTable.Walk, Closed, WellFormed, Chained, HashTable.Length, QueueOk, Waiting, Sizes,
        SizeOf;
      ElemsIn(queued);
      next := EnqueueMarked(i, k, prev, entry, left);
      ElemsIn(queued);
      ElemsPushed(newly, entry);
    }

    /** `GC_enqueue_all_finalizers` */
    method EnqueueAll() returns (ghost newly: seq<Entry>)
      requires ObjectsOk() && QueueOk() && Closed(heap, marks) && objs.Members() !! Elems(queued) && QueueMarked()
      modifies this`marks, this`queue, this`queued, this`bytesFinalized
      modifies objs`chains, objs`entries, objs.heads, objs.Members()`next, objs.Members()`key
      ensures ObjectsOk() && QueueOk() && Closed(heap, marks) && old(marks) <= marks && QueueMarked()
      ensures objs.Members() == {} && queued == newly + old(queued) && Elems(newly) == old(objs.Members())
      ensures bytesFinalized == Sizes(newly)
    {
      hide HashTable.Valid, HashTable.Walk, HashTable.Ahead, Closed, WellFormed, QueueOk, Waiting, Sizes, SizeOf;
      NoSizes();
      bytesFinalized := 0;
      newly := [];
      var i := 0;
      ghost var left: set<Entry>, members0, marks0, queued0 := objs.Members(), objs.Members(), marks, queued;
      objs.WalkStarts();
      assert Flushing(members0, marks0, queued0, newly);
      while i < objs.heads.Length
        invariant i <= objs.heads.Length && objs.Ahead(i, left) && objs.Valid()
        invariant objs.Members() == left <= members0 && Flushing(members0, marks0, queued0, newly)
      {
        objs.ChainStarts(i, left);
        var curr := objs.heads[i];
        var prev: Entry? := null;
        ghost var k := 0;
        while curr != null
          invariant objs.Walk(i, k, prev, curr, left) && objs.Valid()
          invariant objs.Members() == left <= members0 && Flushing(members0, marks0, queued0, newly)
          decreases objs.Length(i)
        {
          var entry: Entry := curr;
          objs.Here(i, k, prev, entry, left);
          curr := FlushEntry(i, k, prev, entry, left, members0, marks0, queued0, newly);
          newly, left := [entry] + newly, left - {entry};
        }
        objs.ChainEnds(i, k, prev, left);
        i := i + 1;
      }
      objs.WalkEnds(left);
    }

    /** The entry found for an object loses its place or gets a new finalizer. */
    method Replace(i: nat, prev: Entry?, curr: Entry, ghost k: nat, fn: Word, clientData: Word, proc: MarkProc)
      requires Valid() && (proc.Unreachable? ==> needUnreachable)
      requires i < |objs.chains| && k < |objs.chains[i]| && curr == objs.chains[i][k] &&
                 prev == At(objs.chains[i], k - 1)
      requires curr in objs.Members() && (prev != null ==> prev in objs.Members())
      modifies objs`chains, objs`entries, objs.heads, objs.Members()`next, curr`info
      ensures Valid()
      ensures if fn == 0 then objs.Members() == old(objs.Members()) - {curr} && curr.info == old(curr.info)
              else
                && objs.Members() == old(objs.Members())
                && curr.info == Finalizer(fn, clientData, old(curr.info).size, proc)
    {
      if fn == 0 {
        RemoveEntry(i, prev, curr, k);
      } else {
        ChangeEntry(curr, fn, clientData, proc);
      }
    }

    method RemoveEntry(i: nat, prev: Entry?, curr: Entry, ghost k: nat)
      requires Valid() && i < |objs.chains| && k < |objs.chains[i]| && curr == objs.chains[i][k]
      requires prev == At(objs.chains[i], k - 1) && (prev != null ==> prev in objs.Members())
      modifies objs`chains, objs`entries, objs.heads, objs.Members()`next
      ensures Valid() && objs.Members() == old(objs.Members()) - {curr}
    {
      hide HashTable.Valid, LinkTable.Valid, Hash, QueueOk, WellFormed, Hide, At, Waiting;
      objs.Unlink(i, prev, curr, k);
    }

    method ChangeEntry(curr: Entry, fn: Word, clientData: Word, proc: MarkProc)
      requires Valid() && (proc.Unreachable? ==> needUnreachable) && curr in objs.Members()
      modifies curr`info
      ensures Valid() && curr.info == Finalizer(fn, clientData, old(curr.info).size, proc)
    {
      hide HashTable.Valid, LinkTable.Valid, Hash, QueueOk, WellFormed, Hide;
      curr.info := Finalizer(fn, clientData, curr.info.size, proc);
    }

    method Enter(obj: Word, fn: Word, clientData: Word, size: nat, proc: MarkProc) returns (e: Entry)
      requires Valid() && (proc.Unreachable? ==> needUnreachable) && obj in heap && objs.log >= 0
      modifies objs`chains, objs`entries, objs.heads
      ensures Valid() && fresh(e) && objs.Members() == old(objs.Members()) + {e}
      ensures Hide(e.key) == obj && e.info == Finalizer(fn, clientData, size, proc)
    {
      hide HashTable.Valid, LinkTable.Valid, Hash, QueueOk, WellFormed;
      e := new Entry(Hide(obj), Finalizer(fn, clientData, size, proc));
      var j := objs.Push(e);
    }

    /** `GC_register_finalizer_inner`: the finalizer of `obj` is replaced, removed (`fn` is 0) or entered
        (`header` has the size of a heap object); the previous one is returned. */
    method RegisterFinalizer(obj: Word, fn: Word, clientData: Word, proc: MarkProc, header: Option<nat>)
        returns (oldFn: Word, oldData: Word, ghost hit: Entry?)
      requires Valid() && (obj in heap <==> header.Some?)
      requires proc.Unreachable? ==> needUnreachable
      modifies objs, objs.heads, objs.Members()`next, objs.Members()`info
      ensures Valid()
      ensures if hit == null then forall e | e in old(objs.Members()) :: old(Hide(e.key)) != obj
              else hit in old(objs.Members()) && old(Hide(hit.key)) == obj
      ensures forall e | e in old(objs.Members()) :: e == hit || e.info == old(e.info)
      ensures hit == null ==> oldFn == 0 && oldData == 0
      ensures hit != null ==> oldFn == old(hit.info).fn && oldData == old(hit.info).clientData
      ensures hit != null && fn == 0 ==> objs.Members() == old(objs.Members()) - {hit}
      ensures hit != null && fn != 0 ==> objs.Members() == old(objs.Members()) &&
                                         hit.info == Finalizer(fn, clientData, old(hit.info).size, proc)
      ensures hit == null && (fn == 0 || header.None?) ==> objs.Members() == old(objs.Members())
      ensures hit == null && fn != 0 && header.Some? ==>
                exists e :: fresh(e) && objs.Members() == old(objs.Members()) + {e} && Hide(e.key) == obj &&
                            e.info == Finalizer(fn, clientData, header.value, proc)
    {
      hide HashTable.Valid, LinkTable.Valid, Hash, QueueOk, WellFormed;
      objs.GrowIfFull();
      var i, prev, curr, k := objs.Lookup(Hide(obj));
      hit := curr;
      oldFn, oldData := 0, 0;
      if curr != null {
        oldFn, oldData := curr.info.fn, curr.info.clientData;
        Replace(i, prev, curr, k, fn, clientData, proc);
      } else if fn != 0 && header.Some? {
        var e := Enter(obj, fn, clientData, header.value, proc);
      }
    }

    lemma QueueEntries()
      requires QueueOk()
      ensures forall e | e in queued :: Enqueued(heap, e)
    {
    }

    lemma QueueLinks()
      requires QueueOk()
      ensures queue == At(queued, 0) && Once(queued)
      ensures forall k | 0 <= k < |queued| :: queued[k].next == At(queued, k + 1)
    {
    }
  }

  /** Marked, or at least all that the mark procedure looks at is. */
  ghost predicate Covered(heap: Heap, marks: set<Obj>, proc: MarkProc, x: Obj) {
    x in marks || match proc
      case NoOrder => true
      case IgnoreSelf => Scanned(heap, marks + {x}, x)
      case _ => Scanned(heap, marks, x)
  }

  /** Marked, with all it points at; the mark itself is missing only for what is to be finalized when
      nothing else leads to it. */
  ghost predicate Settled(heap: Heap, marks: set<Obj>, proc: MarkProc, x: Obj) {
    Scanned(heap, marks, x) && (proc.Unreachable? || x in marks)
  }

  /** Entry `l` of the queue, with the object `y`, is to be finalized only when nothing leads to it. */
  ghost predicate Kept(chain: seq<Entry>, base: map<Entry, Word>, l: int, y: Obj)
    reads Elems(chain)`info
  {
    0 <= l < |chain| && chain[l] in base && base[chain[l]] == y && chain[l].info.Finalizer? &&
    chain[l].info.proc.Unreachable?
  }

  /** The revival marks only objects of entries that it keeps. */
  ghost predicate OnlyKept(chain: seq<Entry>, base: map<Entry, Word>, marks0: set<Obj>, marks: set<Obj>, k: nat)
    reads Elems(chain)`info
  {
    forall y | y in marks && y !in marks0 :: exists l :: l < k && Kept(chain, base, l, y)
  }

  /** What came back to the table was marked before, or is the object of a kept entry. */
  ghost predicate Returned(chain: seq<Entry>, base: map<Entry, Word>, marks0: set<Obj>, members0: set<Entry>,
                           members: set<Entry>, k: nat)
    reads Elems(chain)`info
  {
    forall e | e in members && e !in members0 && e in base && base[e] !in marks0 ::
      exists l :: l < k && Kept(chain, base, l, base[e])
  }

  lemma KeptWithout(chain: seq<Entry>, base: map<Entry, Word>, k: nat, l: int, y: Obj)
    requires l < k < |chain| && Kept(chain, base, l, y)
    ensures Kept(Without(chain, k), base, l, y)
  {
  }

  /** An entry with a marked object goes back to the table. */
  lemma SentBack(chain: seq<Entry>, base: map<Entry, Word>, marks0: set<Obj>, marks: set<Obj>, members0: set<Entry>,
                 members: set<Entry>, k: nat)
    requires k < |chain| && chain[k] in base && base[chain[k]] in marks
    requires OnlyKept(chain, base, marks0, marks, k) && Returned(chain, base, marks0, members0, members, k)
    ensures OnlyKept(Without(chain, k), base, marks0, marks, k)
    ensures Returned(Without(chain, k), base, marks0, members0, members + {chain[k]}, k)
  {
    hide Kept;
    var rest := Without(chain, k);
    forall y | y in marks && y !in marks0 ensures exists l :: l < k && Kept(rest, base, l, y) {
      var l :| l < k && Kept(chain, base, l, y);
      KeptWithout(chain, base, k, l, y);
    }
    forall e | e in members && e !in members0 && e in base && base[e] !in marks0
      ensures exists l :: l < k && Kept(rest, base, l, base[e])
    {
      var l :| l < k && Kept(chain, base, l, base[e]);
      KeptWithout(chain, base, k, l, base[e]);
    }
  }

  /** An entry stays, and its object is marked if it is to be finalized only when nothing leads to it. */
  lemma KeptNext(chain: seq<Entry>, base: map<Entry, Word>, marks0: set<Obj>, marks: set<Obj>, members0: set<Entry>,
                 members: set<Entry>, k: nat)
    requires k < |chain| && chain[k] in base && chain[k].info.Finalizer?
    requires OnlyKept(chain, base, marks0, marks, k) && Returned(chain, base, marks0, members0, members, k)
    ensures OnlyKept(chain, base, marks0, marks, k + 1) && Returned(chain, base, marks0, members0, members, k + 1)
    ensures chain[k].info.proc.Unreachable? ==> OnlyKept(chain, base, marks0, marks + {base[chain[k]]}, k + 1)
  {
    hide Kept;
    forall y | y in marks && y !in marks0 ensures exists l :: l < k + 1 && Kept(chain, base, l, y) {
      var l :| l < k && Kept(chain, base, l, y);
    }
    forall e | e in members && e !in members0 && e in base && base[e] !in marks0
      ensures exists l :: l < k + 1 && Kept(chain, base, l, base[e])
    {
      var l :| l < k && Kept(chain, base, l, base[e]);
    }
    if chain[k].info.proc.Unreachable? { KeptItself(chain, base, k); }
  }

  lemma KeptItself(chain: seq<Entry>, base: map<Entry, Word>, k: nat)
    requires k < |chain| && chain[k] in base && chain[k].info.Finalizer? && chain[k].info.proc.Unreachable?
    ensures Kept(chain, base, k, base[chain[k]])
  {
  }

  /** What the entry `e` of the queue has marked with Java finalization. */
  ghost predicate MarkedFor(heap: Heap, before: set<Obj>, e: Entry, y: Obj)
    reads e`key, e`info
  {
    e.info.Finalizer? && !e.info.proc.Unreachable? && e.key !in before && (y == e.key || Reaches(heap, e.key, y))
  }

  lemma GuardedCovered(heap: Heap, marks: set<Obj>, proc: MarkProc, p: Obj)
    requires forall y | Protects(heap, proc, p, y) :: y in marks
    ensures Covered(heap, marks, proc, p)
  {
    if p in heap {
      forall c | c in heap[p] ensures Reaches(heap, p, c) { OneStep(heap, p, c); }
    }
  }

  lemma AllSettled(heap: Heap, marks: set<Obj>, chain: seq<Entry>)
    requires forall e | e in chain :: e.info.Finalizer? && Settled(heap, marks, e.info.proc, e.key)
    ensures forall e | e in chain :: Scanned(heap, marks, e.key) && (e.info.proc.Unreachable? || e.key in marks)
  {
  }

  lemma SettledMeans(heap: Heap, marks: set<Obj>, proc: MarkProc, x: Obj)
    requires Settled(heap, marks, proc, x)
    ensures Scanned(heap, marks, x) && (proc.Unreachable? || x in marks)
  {
  }

  lemma CoveredWider(heap: Heap, marks: set<Obj>, marks': set<Obj>, proc: MarkProc, x: Obj)
    requires Covered(heap, marks, proc, x) && marks <= marks'
    ensures Covered(heap, marks', proc, x)
  {
  }

  lemma SettledWider(heap: Heap, marks: set<Obj>, marks': set<Obj>, proc: MarkProc, x: Obj)
    requires Settled(heap, marks, proc, x) && marks <= marks'
    ensures Settled(heap, marks', proc, x)
  {
  }

  /** The body of the loop over the queue. */
  method MarkEntry(heap: Heap, before: set<Obj>, x: Obj, proc: MarkProc) returns (marks: set<Obj>)
    requires WellFormed(heap) && before <= heap.Keys && Closed(heap, before) && x in heap &&
               Covered(heap, before, proc, x)
    ensures before <= marks <= heap.Keys && Closed(heap, marks) && Settled(heap, marks, proc, x)
    ensures forall y | y in marks && y !in before ::
              x !in before && !proc.Unreachable? && (y == x || Reaches(heap, x, y))
  {
    hide Closed, Reaches;
    marks := before;
    if x !in marks {
      if proc.NoOrder? { marks := MarkFrom(heap, marks, x, Normal); }
      if !proc.Unreachable? {
        ScannedWider(heap, marks, marks + {x}, x);
        ClosedWith(heap, marks, x);
        marks := marks + {x};
      }
    } else {
      ClosedScanned(heap, marks, x);
    }
  }

  lemma ElemsIn(chain: seq<Entry>)
    ensures forall e :: e in Elems(chain) <==> e in chain
  {
  }

  lemma NoSizes()
    ensures Elems([]) == {} && Sizes([]) == 0
  {
  }

  lemma ElemsPushed(chain: seq<Entry>, e: Entry)
    ensures Elems([e] + chain) == Elems(chain) + {e} && Sizes([e] + chain) == SizeOf(e) + Sizes(chain)
  {
    assert ([e] + chain)[1..] == chain;
  }

  lemma MovedBack(members: set<Entry>, waiting: set<Entry>, e: Entry)
    requires members !! waiting && e in waiting
    ensures (members + {e}) !! (waiting - {e}) && (members + {e}) + (waiting - {e}) == members + waiting
  {
  }

  lemma ElemsWithout(chain: seq<Entry>, k: nat)
    requires k < |chain| && Once(chain)
    ensures Elems(Without(chain, k)) == Elems(chain) - {chain[k]}
  {
    forall l | 0 <= l < |chain| && l != k ensures chain[l] in Without(chain, k) {
      assert Without(chain, k)[if l < k then l else l - 1] == chain[l];
    }
  }

  lemma {:induction false} SizesConcat(a: seq<Entry>, b: seq<Entry>)
    ensures Sizes(a + b) == Sizes(a) + Sizes(b)
  {
    if a == [] {
      assert a + b == b;
    } else {
      SizesConcat(a[1..], b);
      assert (a + b)[1..] == a[1..] + b;
    }
  }

  lemma {:induction false} SizesWithout(chain: seq<Entry>, k: nat)
    requires k < |chain|
    ensures Sizes(Without(chain, k)) == Sizes(chain) - SizeOf(chain[k])
  {
    if k == 0 {
      assert Without(chain, 0) == chain[1..];
    } else {
      SizesWithout(chain[1..], k - 1);
      assert Without(chain, k)[1..] == Without(chain[1..], k - 1);
    }
  }

  lemma ScannedWider(heap: Heap, marks: set<Obj>, marks': set<Obj>, x: Obj)
    requires marks <= marks'
    ensures Scanned(heap, marks, x) ==> Scanned(heap, marks', x)
  {
  }

  lemma ClosedScanned(heap: Heap, marks: set<Obj>, x: Obj)
    requires Closed(heap, marks) && x in marks
    ensures Scanned(heap, marks, x)
  {
  }

  lemma ClosedWith(heap: Heap, marks: set<Obj>, x: Obj)
    requires Closed(heap, marks) && Scanned(heap, marks + {x}, x)
    ensures Closed(heap, marks + {x})
  {
    forall y | y in marks ensures Scanned(heap, marks + {x}, y) { assert Scanned(heap, marks, y); }
  }
}
