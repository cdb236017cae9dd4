/** Disappearing links (src/gc-7.2/finalize.c:50-66, 136-243, 537-563, 665-688). */
module DisappearingLinks {
  import opened Marking
  import opened HashChains
  import opened Wrappers

  ghost predicate Distinct(entries: set<Entry>)
    reads entries`key
  {
    forall e, f | e in entries && f in entries && e.key == f.key :: e == f
  }

  /** The links of a set of entries and their objects. */
  ghost function LinkMap(entries: set<Entry>): map<Word, Word>
    requires Distinct(entries) && forall e | e in entries :: e.info.LinkTo?
    reads entries`key, entries`info
  {
    map e | e in entries :: Hide(e.key) := Hide(e.info.hiddenObj)
  }

  lemma LinkMapWith(entries: set<Entry>, e: Entry)
    requires Distinct(entries + {e}) && e !in entries && forall f | f in entries + {e} :: f.info.LinkTo?
    ensures Distinct(entries) && LinkMap(entries + {e}) == LinkMap(entries)[Hide(e.key) := Hide(e.info.hiddenObj)]
    ensures Hide(e.key) !in LinkMap(entries)
  {
  }

  lemma Undone(m: map<Word, Word>, link: Word, obj: Word)
    requires link !in m
    ensures m[link := obj] - {link} == m
  {
  }

  lemma HideTwice(p: Word)
    ensures Hide(Hide(p)) == p
  {
  }

  lemma LinkMapHas(entries: set<Entry>, link: Word)
    requires Distinct(entries) && forall e | e in entries :: e.info.LinkTo?
    ensures link in LinkMap(entries) <==> exists e :: e in entries && e.key == Hide(link)
  {
  }

  class LinkTable {
    const table: HashTable
    /** The words that links point at. */
    var words: map<Word, Word>
    /** `GC_base`: the heap object a link lies in, for those that lie in one. */
    var container: map<Word, Word>

    constructor (words: map<Word, Word>, container: map<Word, Word>)
      ensures Valid() && this.words == words && this.container == container && table.Members() == {}
      ensures fresh(table) && fresh(table.heads)
    {
      table := new HashTable();
      this.words, this.container := words, container;
    }

    /** Every link is registered once. */
    ghost predicate Valid()
      reads this, table, table.heads, table.Members()
    {
      table.Valid() && Distinct(table.Members()) && forall e | e in table.Members() :: e.info.LinkTo?
    }

    /** The registered links and their objects. */
    ghost function Links(): map<Word, Word>
      requires Valid()
      reads this, table, table.heads, table.Members()
    {
      LinkMap(table.Members())
    }

    /** The object of a link is marked. */
    predicate Live(e: Entry, marks: set<Obj>)
      reads e`info
    {
      e.info.LinkTo? && Hide(e.info.hiddenObj) in marks
    }

    /** The entries whose objects are not marked. */
    ghost function Dead(marks: set<Obj>): set<Entry>
      reads this, table, table.Members()`info
    {
      set e | e in table.Members() && !Live(e, marks)
    }

    /** The link itself is outside the heap or in a marked object. */
    predicate Held(e: Entry, marks: set<Obj>)
      reads this`container, e`key
    {
      Hide(e.key) in container ==> container[Hide(e.key)] in marks
    }

    /** The links of the entries `gone` have been cleared, and no other word. */
    ghost predicate Cleared(before: map<Word, Word>, after: map<Word, Word>, gone: set<Entry>)
      reads gone`key
    {
      && after.Keys == before.Keys + (set e | e in gone :: Hide(e.key))
      && forall a | a in after :: after[a] == if exists e :: e in gone && Hide(e.key) == a then 0 else before[a]
    }

    lemma ClearedNext(before: map<Word, Word>, after: map<Word, Word>, gone: set<Entry>, e: Entry)
      requires Cleared(before, after, gone)
      ensures Cleared(before, after[Hide(e.key) := 0], gone + {e})
    {
    }

    /** The first pass of `GC_finalize`: links to unmarked objects are cleared and dropped. */
    method ClearDead(marks: set<Obj>)
      requires Valid()
      modifies this`words, table`chains, table`entries, table.heads, table.Members()`next
      ensures Valid() && table.Members() == old(table.Members() - Dead(marks))
      ensures Cleared(old(words), words, old(Dead(marks)))
    {
      hide HashTable.Valid, HashTable.Walk, HashTable.Ahead, Cleared;
      var i := 0;
      ghost var left := table.Members();
      table.WalkStarts();
      NoneCleared(words);
      assert table.Members() - table.Members() == {};
      while i < table.heads.Length
        invariant i <= table.heads.Length && Valid() && table.Ahead(i, left)
        invariant left <= table.Members() <= old(table.Members())
        invariant forall e | e in table.Members() - left :: Live(e, marks)
        invariant forall e | e in old(table.Members()) - table.Members() :: !Live(e, marks)
        invariant Cleared(old(words), words, old(table.Members()) - table.Members())
      {
        table.ChainStarts(i, left);
        var curr := table.heads[i];
        var prev: Entry? := null;
        ghost var k := 0;
        while curr != null
          invariant Valid() && table.Walk(i, k, prev, curr, left)
          invariant left <= table.Members() <= old(table.Members())
          invariant forall e | e in table.Members() - left :: Live(e, marks)
          invariant forall e | e in old(table.Members()) - table.Members() :: !Live(e, marks)
          invariant Cleared(old(words), words, old(table.Members()) - table.Members())
          decreases table.Length(i) - k
        {
          var entry := curr;
          table.Here(i, k, prev, entry, left);
          if Hide(entry.info.hiddenObj) !in marks {
            ghost var gone := old(table.Members()) - table.Members();
            ClearedNext(old(words), words, gone, entry);
            words := words[Hide(entry.key) := 0];
            curr := table.Drop(i, k, prev, entry, left);
            assert old(table.Members()) - table.Members() == gone + {entry};
          } else {
            table.NextEntry(i, k, prev, entry, left);
            curr := entry.next;
            prev, k := entry, k + 1;
          }
          left := left - {entry};
        }
        table.ChainEnds(i, k, prev, left);
        i := i + 1;
      }
      table.WalkEnds(left);
      assert forall e | e in old(table.Members()) :: old(Live(e, marks)) == Live(e, marks);
      assert old(table.Members()) - table.Members() == old(Dead(marks));
    }

    /** The last pass of `GC_finalize`: links inside unmarked objects are forgotten. */
    method DropDangling(marks: set<Obj>)
      requires Valid()
      modifies table`chains, table`entries, table.heads, table.Members()`next
      ensures Valid() && table.Members() <= old(table.Members())
      ensures forall e | e in table.Members() :: Held(e, marks)
      ensures forall e | e in old(table.Members()) - table.Members() :: !Held(e, marks)
    {
      hide HashTable.Valid, HashTable.Walk, HashTable.Ahead;
      var i := 0;
      ghost var left := table.Members();
      table.WalkStarts();
      while i < table.heads.Length
        invariant i <= table.heads.Length && Valid() && table.Ahead(i, left)
        invariant left <= table.Members() <= old(table.Members())
        invariant forall e | e in table.Members() - left :: Held(e, marks)
        invariant forall e | e in old(table.Members()) - table.Members() :: !Held(e, marks)
      {
        table.ChainStarts(i, left);
        var curr := table.heads[i];
        var prev: Entry? := null;
        ghost var k := 0;
        while curr != null
          invariant Valid() && table.Walk(i, k, prev, curr, left)
          invariant left <= table.Members() <= old(table.Members())
          invariant forall e | e in table.Members() - left :: Held(e, marks)
          invariant forall e | e in old(table.Members()) - table.Members() :: !Held(e, marks)
          decreases table.Length(i) - k
        {
          var entry := curr;
          table.Here(i, k, prev, entry, left);
          var link := Hide(entry.key);
          if link in container && container[link] !in marks {
            curr := table.Drop(i, k, prev, entry, left);
          } else {
            table.NextEntry(i, k, prev, entry, left);
            curr := entry.next;
            prev, k := entry, k + 1;
          }
          left := left - {entry};
        }
        table.ChainEnds(i, k, prev, left);
        i := i + 1;
      }
      table.WalkEnds(left);
    }

    /** `GC_general_register_disappearing_link`, for an aligned link that is not null. */
    method Register(link: Word, obj: Word) returns (duplicate: bool)
      requires Valid() && link % 8 == 0 && link != 0
      modifies table, table.heads, table.Members()`next, table.Members()`info
      ensures Valid() && Links() == old(Links())[link := obj]
      ensures duplicate <==> link in old(Links())
      ensures table.Members() >= old(table.Members()) && fresh(table.Members() - old(table.Members()))
      ensures table.heads == old(table.heads) || fresh(table.heads)
    {
      hide HashTable.Valid, Hash, LinkMap, Hide, Distinct;
      table.GrowIfFull();
      var i, prev, curr, k := table.Lookup(Hide(link));
      LinkMapHas(table.Members(), link);
      duplicate := curr != null;
      if curr != null {
        Redirect(curr, link, obj);
      } else {
        EnterLink(link, obj);
      }
    }

    /** A registered link gets another object. */
    method Redirect(curr: Entry, link: Word, obj: Word)
      requires Valid() && curr in table.Members() && curr.key == Hide(link)
      modifies curr`info
      ensures Valid() && Links() == old(Links())[link := obj]
    {
      hide HashTable.Valid, Hash, LinkMap, Hide;
      ghost var others := table.Members() - {curr};
      assert table.Members() == others + {curr};
      LinkMapWith(others, curr);
      curr.info := LinkTo(Hide(obj));
      LinkMapWith(others, curr);
      HideTwice(link);
      HideTwice(obj);
    }

    method EnterLink(link: Word, obj: Word)
      requires Valid() && table.log >= 0 && forall e | e in table.Members() :: e.key != Hide(link)
      modifies table`chains, table`entries, table.heads
      ensures Valid() && Links() == old(Links())[link := obj]
      ensures table.Members() >= old(table.Members()) && fresh(table.Members() - old(table.Members()))
    {
      hide HashTable.Valid, Hash, LinkMap, Hide;
      ghost var others := table.Members();
      var e := new Entry(Hide(link), LinkTo(Hide(obj)));
      var _ := table.Push(e);
      LinkMapWith(others, e);
      HideTwice(link);
      HideTwice(obj);
    }

    /** `GC_unregister_disappearing_link`; None where it follows the null pointer that stands for the
        table before anything is registered. */
    method Unregister(link: Word) returns (found: Option<bool>)
      requires Valid()
      modifies table`chains, table`entries, table.heads, table.Members()`next
      ensures Valid() && (found.None? <==> link % 8 == 0 && table.log < 0)
      ensures found.Some? ==> (found.value <==> link % 8 == 0 && link in old(Links()))
      ensures Links() == if found == Some(true) then old(Links()) - {link} else old(Links())
      ensures table.Members() <= old(table.Members()) && table.log == old(table.log)
    {
      hide HashTable.Valid, Hash, LinkMap, Hide, Distinct;
      if link % 8 != 0 { return Some(false); }
      if table.log < 0 { return None; }
      var i, prev, curr, k := table.Lookup(Hide(link));
      LinkMapHas(table.Members(), link);
      if curr != null { DropLink(i, prev, curr, k, link); }
      found := Some(curr != null);
    }

    method DropLink(i: nat, prev: Entry?, curr: Entry, ghost k: nat, ghost link: Word)
      requires Valid() && i < |table.chains| && k < |table.chains[i]| && curr == table.chains[i][k]
      requires prev == At(table.chains[i], k - 1) && (prev != null ==> prev in table.Members())
      requires curr in table.Members() && curr.key == Hide(link)
      modifies table`chains, table`entries, table.heads, table.Members()`next
      ensures Valid() && Links() == old(Links()) - {link} && table.Members() == old(table.Members()) - {curr}
    {
      hide HashTable.Valid, Hash, LinkMap, Hide, At, Distinct;
      ghost var others := table.Members() - {curr};
      assert table.Members() == others + {curr};
      LinkMapWith(others, curr);
      HideTwice(link);
      ghost var m := LinkMap(others);
      Undone(m, link, Hide(curr.info.hiddenObj));
      assert Links() - {link} == m;
      table.Unlink(i, prev, curr, k);
      assert table.Members() == others && LinkMap(others) == m;
    }

    lemma NoneCleared(words: map<Word, Word>)
      ensures Cleared(words, words, {})
    {
    }
  }
}
