/**
  The MinMaxCounters of python/cross-double-links.py over the links of python/doubly_linked_list.py: a list of heads
  ordered by count, and for each head a list of the elements that have this count.
*/
module CrossDoubleLinks {
  import FiniteSets
  import opened Wrappers

  /** A link with its data: an element has a key and a head, a head has a count and a first element.  The rank orders
      the elements of one list. */
  class Dnode<T> {
    const key: Option<T>
    const cnt: nat
    var prev: Dnode?<T>
    var next: Dnode?<T>
    var head: Dnode?<T>
    var l: Dnode?<T>
    ghost var rank: real

    constructor Element(t: T, head: Dnode<T>)
      ensures key == Some(t) && cnt == 0 && prev == null && next == null && this.head == head && l == null
    {
      key, cnt := Some(t), 0;
      prev, next, this.head, l := null, null, head, null;
    }

    constructor Head(cnt: nat)
      ensures key == None && this.cnt == cnt && prev == null && next == null && head == null && l == null
    {
      key, this.cnt := None, cnt;
      prev, next, head, l := null, null, null, null;
    }

    ghost function Neighbour(n: Dnode?<T>): set<Dnode<T>> { if n == null then {} else {n} }

    /** Links the neighbours to each other; the own links stay. */
    method Remove()
      requires prev != null ==> prev != this
      requires next != null ==> next != this
      modifies Neighbour(prev)`next, Neighbour(next)`prev
      ensures prev != null ==> prev.next == next
      ensures next != null ==> next.prev == prev
      ensures prev == old(prev) && next == old(next)
    {
      if prev != null {
        prev.next := next;
        if next != null {
          next.prev := prev;
        }
      } else if next != null {
        next.prev := null;
      }
    }

    /** Inserts `dl` after this. */
    method Insert(dl: Dnode<T>)
      requires dl != this && next != this && next != dl
      modifies this`next, dl`prev, dl`next, Neighbour(next)`prev
      ensures next == dl && dl.prev == this && dl.next == old(next)
      ensures old(next) != null ==> old(next).prev == dl
    {
      var after := next;
      next := dl;
      dl.prev := this;
      dl.next := after;
      if after != null {
        after.prev := dl;
      }
    }
  }

  /** The list of heads: linked both ways between the two sentinels, the counts falling. */
  ghost predicate HeadOk<T>(maxHead: Dnode<T>, minTail: Dnode<T>, heads: set<Dnode<T>>, h: Dnode<T>)
    reads heads, h
  {
    && h.key == None
    && (h.prev == null <==> h == maxHead) && (h.next == null <==> h == minTail)
    && (h.prev != null ==> h.prev in heads && h.prev.next == h)
    && (h.next != null ==> h.next in heads && h.next.prev == h)
    && (h == maxHead || h == minTail ==> h.cnt == 0 && h.l == null)
    && (h != maxHead && h != minTail ==> 0 < h.cnt)
    && (h != maxHead && h.next != null && h.next != minTail ==> h.next.cnt < h.cnt)
  }

  /** A head's first element; only the head `open` may have none. */
  ghost predicate FirstOk<T>(open: Dnode?<T>, elems: set<Dnode<T>>, h: Dnode<T>)
    reads elems, h
  {
    && (h.l != null ==> h.l in elems && h.l.head == h && h.l.prev == null)
    && (h.l == null ==> h == open)
  }

  /** The list of elements of one head. */
  ghost predicate ElementOk<T>(inner: set<Dnode<T>>, elems: set<Dnode<T>>, e: Dnode<T>)
    reads inner, elems, e
  {
    && e.head != null && e.head in inner
    && (e.prev == null ==> e.head.l == e)
    && (e.prev != null ==> e.prev in elems && e.prev.next == e && e.prev.head == e.head && e.prev.rank < e.rank)
    && (e.next != null ==> e.next in elems && e.next.prev == e)
  }

  /** The index holds each element under its key. */
  ghost predicate Indexed<T>(index: map<T, Dnode<T>>, elems: set<Dnode<T>>) {
    && (forall k :: k in index ==> index[k] in elems && index[k].key == Some(k))
    && (forall e :: e in elems ==> e.key.Some? && e.key.value in index && index[e.key.value] == e)
  }

  lemma IndexedWith<T>(index: map<T, Dnode<T>>, elems: set<Dnode<T>>, t: T, pt: Dnode<T>)
    requires Indexed(index, elems) && pt.key == Some(t) && (t in index ==> index[t] == pt)
    ensures Indexed(index[t := pt], elems + {pt})
    ensures forall k :: k in index && k != t ==> index[k] in elems && index[k] != pt
  {}

  lemma IndexedWithout<T>(index: map<T, Dnode<T>>, elems: set<Dnode<T>>, t: T)
    requires Indexed(index, elems) && t in index
    ensures index[t] in elems && Indexed(index - {t}, elems - {index[t]})
    ensures forall k :: k in index && k != t ==> index[k] in elems && index[k] != index[t]
  {}

  class MinMaxCounters<T(==)> {
    const maxHead: Dnode<T>
    const minTail: Dnode<T>
    var index: map<T, Dnode<T>>
    ghost var heads: set<Dnode<T>>
    ghost var elems: set<Dnode<T>>

    ghost function Inner(): set<Dnode<T>>
      reads this`heads, this`elems
    {
      heads - {maxHead, minTail}
    }

    ghost predicate Apart()
      reads this`heads, this`elems
    {
      maxHead != minTail && maxHead in heads && minTail in heads && heads !! elems
    }

    ghost predicate HeadsOk()
      reads this`heads, this`elems, heads
    {
      forall h {:trigger HeadOk(maxHead, minTail, heads, h)} :: h in heads ==> HeadOk(maxHead, minTail, heads, h)
    }

    ghost predicate FirstsOk(open: Dnode?<T>)
      reads this`heads, this`elems, heads, elems
    {
      forall h {:trigger FirstOk(open, elems, h)} :: h in Inner() ==> FirstOk(open, elems, h)
    }

    ghost predicate ElementsOk()
      reads this`heads, this`elems, heads, elems
    {
      forall e {:trigger ElementOk(Inner(), elems, e)} :: e in elems ==> ElementOk(Inner(), elems, e)
    }

    /** The lists, where only the head `open` may have no element. */
    ghost predicate Linked(open: Dnode?<T>)
      reads this`heads, this`elems, heads, elems
    {
      Apart() && HeadsOk() && FirstsOk(open) && ElementsOk()
    }

    ghost predicate Valid()
      reads this, heads, elems
    {
      Linked(null) && Indexed(index, elems)
    }

    /** The count of every key. */
    ghost function Counts(): map<T, nat>
      requires Valid()
      reads this, heads, elems
    {
      map k | k in index :: CountOf(index[k])
    }

    ghost function CountOf(e: Dnode<T>): nat
      requires Linked(null) && e in elems
      reads this`heads, this`elems, heads, elems
    {
      assert ElementOk(Inner(), elems, e);
      e.head.cnt
    }

    constructor ()
      ensures Valid() && Counts() == map[] && fresh(heads) && fresh(elems)
    {
      maxHead := new Dnode<T>.Head(0);
      minTail := new Dnode<T>.Head(0);
      index := map[];
      new;
      maxHead.next := minTail;
      minTail.prev := maxHead;
      heads, elems := {maxHead, minTail}, {};
    }

    method AddToEmpty(p: Dnode<T>, phead: Dnode<T>)
      requires Linked(phead) && phead in Inner() && p !in elems && p !in heads && phead.l == null
      requires p.prev == null && p.next == null
      modifies this`elems, p, phead`l
      ensures elems == old(elems) + {p} && p.head == phead && Linked(null)
      ensures forall e :: e in old(elems) ==> e.head == old(e.head)
    {
      p.head := phead;
      phead.l := p;
      elems := elems + {p};
      assert HeadsOk() by {
        forall h | h in heads ensures HeadOk(maxHead, minTail, heads, h) {
          assert old(HeadOk(maxHead, minTail, heads, h));
        }
      }
      assert FirstsOk(null) by {
        forall h | h in Inner() ensures FirstOk(null, elems, h) { assert old(FirstOk(phead, elems, h)); }
      }
      assert ElementsOk() by {
        forall e | e in elems ensures ElementOk(Inner(), elems, e) {
          if e != p { assert old(ElementOk(Inner(), elems, e)); }
        }
      }
    }

    method AddToList(p: Dnode<T>, phead: Dnode<T>)
      requires Linked(phead) && phead in Inner() && p !in elems && p !in heads && phead.l != null
      requires p.prev == null && p.next == null
      modifies this`elems, p, elems`next, elems`prev
      ensures elems == old(elems) + {p} && p.head == phead && Linked(null)
      ensures forall e :: e in old(elems) ==> e.head == old(e.head)
    {
      assert FirstOk(phead, elems, phead);
      p.head := phead;
      var first := phead.l;
      assert ElementOk(Inner(), elems, first);
      assert first.next != null ==> ElementOk(Inner(), elems, first.next);
      p.rank := Middle(first.rank, first.next);
      first.Insert(p);
      elems := elems + {p};
      assert HeadsOk() by {
        forall h | h in heads ensures HeadOk(maxHead, minTail, heads, h) {
          assert old(HeadOk(maxHead, minTail, heads, h));
        }
      }
      assert FirstsOk(null) by {
        forall h | h in Inner() ensures FirstOk(null, elems, h) { assert old(FirstOk(phead, elems, h)); }
      }
      assert ElementsOk() by {
        forall e | e in elems ensures ElementOk(Inner(), elems, e) {
          if e != p { assert old(ElementOk(Inner(), elems, e)); }
        }
      }
    }

    /** A rank after `rank` and before that of `next`. */
    ghost function Middle(rank: real, next: Dnode?<T>): (r: real)
      requires next != null ==> rank < next.rank
      reads next
      ensures rank < r && (next != null ==> r < next.rank)
    {
      if next == null then rank + 1.0 else (rank + next.rank) / 2.0
    }

    /** Puts an element that is in no list into the list of `phead`. */
    method Add(p: Dnode<T>, phead: Dnode<T>)
      requires Linked(phead) && phead in Inner() && p !in elems && p !in heads
      requires p.prev == null && p.next == null
      modifies this`elems, p, phead`l, elems`next, elems`prev
      ensures elems == old(elems) + {p} && p.head == phead && Linked(null)
      ensures forall e :: e in old(elems) ==> e.head == old(e.head)
    {
      if phead.l == null {
        AddToEmpty(p, phead);
      } else {
        AddToList(p, phead);
      }
    }

    /** In no list yet: a new element, whose head is the last sentinel. */
    ghost predicate Alone(p: Dnode<T>)
      reads this`heads, this`elems, p
    {
      p !in elems && p !in heads && p.prev == null && p.next == null && p.head == minTail
    }

    /** Takes an element out of its list; the head may be left without one. */
    method Unlink(p: Dnode<T>)
      requires Linked(null) && (p in elems || Alone(p))
      modifies this`elems, elems`next, elems`prev, heads`l
      ensures elems == old(elems) - {p} && p.head == old(p.head) && p.head != null && Linked(p.head)
      ensures p in old(elems) ==> p.head in Inner()
    {
      if p in elems {
        assert ElementOk(Inner(), elems, p);
        assert FirstOk(null, elems, p.head);
        assert p.prev != null ==> ElementOk(Inner(), elems, p.prev);
        assert p.next != null ==> ElementOk(Inner(), elems, p.next);
      }
      assert HeadOk(maxHead, minTail, heads, p.head);
      p.Remove();
      var phead := p.head;
      if phead.l == p {
        phead.l := p.next;
      }
      elems := elems - {p};
      assert HeadsOk() by {
        forall h | h in heads ensures HeadOk(maxHead, minTail, heads, h) {
          assert old(HeadOk(maxHead, minTail, heads, h));
        }
      }
      assert FirstsOk(phead) by {
        forall h | h in Inner() ensures FirstOk(phead, elems, h) { assert old(FirstOk(null, elems, h)); }
      }
      assert ElementsOk() by {
        forall e | e in elems ensures ElementOk(Inner(), elems, e) { assert old(ElementOk(Inner(), elems, e)); }
      }
    }

    ghost function Before(e: Dnode<T>): set<Dnode<T>>
      reads this`heads, this`elems, elems, e
    {
      set x | x in elems && x.rank < e.rank
    }

    /** A head without a first element has none at all. */
    lemma {:induction false} NoElements(h: Dnode<T>, e: Dnode<T>)
      requires Linked(h) && h in Inner() && h.l == null && e in elems
      ensures e.head != h
      decreases |Before(e)|
    {
      assert ElementOk(Inner(), elems, e);
      if e.head == h && e.prev != null {
        assert Before(e.prev) <= Before(e) - {e.prev};
        assert e.prev in Before(e);
        Smaller(Before(e.prev), Before(e), e.prev);
        NoElements(h, e.prev);
      }
    }

    method DropHead(h: Dnode<T>)
      requires Linked(h) && h in Inner() && h.l == null
      modifies this`heads, heads`next, heads`prev
      ensures heads == old(heads) - {h} && Linked(null)
      ensures h.prev == old(h.prev) && h.next == old(h.next) && h.prev != null && h.next != null && h.prev in heads && h.next in heads
      ensures h.prev.next == h.next && h.next.prev == h.prev
    {
      forall e | e in elems ensures e.head != h { NoElements(h, e); }
      assert HeadOk(maxHead, minTail, heads, h);
      assert HeadOk(maxHead, minTail, heads, h.prev) && HeadOk(maxHead, minTail, heads, h.next);
      h.Remove();
      heads := heads - {h};
      assert HeadsOk() by {
        forall g | g in heads ensures HeadOk(maxHead, minTail, heads, g) { assert old(HeadOk(maxHead, minTail, heads, g)); }
      }
      assert FirstsOk(null) by {
        forall g | g in Inner() ensures FirstOk(null, elems, g) { assert old(FirstOk(h, elems, g)); }
      }
      assert ElementsOk() by {
        forall e | e in elems ensures ElementOk(Inner(), elems, e) { assert old(ElementOk(Inner(), elems, e)); }
      }
    }

    /** A new head after `before`, for a count between the neighbours'. */
    method InsertHead(before: Dnode<T>, cnt: nat) returns (h: Dnode<T>)
      requires Linked(null) && before in heads && before != minTail && before.next != null && 0 < cnt
      requires before != maxHead ==> cnt < before.cnt
      requires before.next != minTail ==> before.next.cnt < cnt
      modifies this`heads, heads`next, heads`prev
      ensures fresh(h) && heads == old(heads) + {h} && Linked(h) && h in Inner() && h.cnt == cnt && h.l == null
    {
      assert HeadOk(maxHead, minTail, heads, before) && HeadOk(maxHead, minTail, heads, before.next);
      h := new Dnode<T>.Head(cnt);
      before.Insert(h);
      heads := heads + {h};
      assert HeadsOk() by {
        forall g | g in heads ensures HeadOk(maxHead, minTail, heads, g) {
          if g != h { assert old(HeadOk(maxHead, minTail, heads, g)); }
        }
      }
      assert FirstsOk(h) by {
        forall g | g in Inner() ensures FirstOk(h, elems, g) { if g != h { assert old(FirstOk(null, elems, g)); } }
      }
      assert ElementsOk() by {
        forall e | e in elems ensures ElementOk(Inner(), elems, e) { assert old(ElementOk(Inner(), elems, e)); }
      }
    }

    /** `h` lies between `a` and `b`, or is gone and they are linked to each other. */
    ghost predicate Around(a: Dnode<T>, h: Dnode<T>, b: Dnode<T>)
      reads this`heads, this`elems, heads, a, b
    {
      && a in heads && b in heads
      && a.next == (if h in heads then h else b) && b.prev == (if h in heads then h else a)
    }

    /** No head is without an element after all. */
    lemma NoneOpen(open: Dnode<T>)
      requires Linked(open) && (open in Inner() ==> open.l != null)
      ensures Linked(null)
    {
      forall h | h in Inner() ensures FirstOk(null, elems, h) { assert FirstOk(open, elems, h); }
    }

    /** Takes an element out of its list, and its head out of the list of heads if that is left empty. */
    method Remove(p: Dnode<T>)
      requires Linked(null) && (p in elems || Alone(p))
      modifies this`elems, this`heads, p, elems`next, elems`prev, heads`l, heads`next, heads`prev
      ensures elems == old(elems) - {p} && Linked(null) && p.prev == null && p.next == null && p.head == null
      ensures old(p.head) != null && old(heads) - {old(p.head)} <= heads <= old(heads)
      ensures old(p.head) == minTail ==> heads == old(heads) && minTail.prev == old(minTail.prev)
      ensures forall e :: e in elems ==> e.head == old(e.head)
      ensures p in old(elems) ==> old(p.head) in old(heads) && old(p.head.prev) != null && old(p.head.next) != null
      ensures p in old(elems) ==> Around(old(p.head.prev), old(p.head), old(p.head.next))
    {
      assert p in elems ==> ElementOk(Inner(), elems, p);
      assert HeadOk(maxHead, minTail, heads, p.head);
      Unlink(p);
      var phead := p.head;
      if phead.l == null && phead != maxHead && phead != minTail {
        DropHead(phead);
      } else {
        NoneOpen(phead);
        assert HeadOk(maxHead, minTail, heads, phead);
      }
      p.head, p.next, p.prev := null, null, null;
    }

    lemma CountsAreHeads()
      requires Valid()
      ensures Counts().Keys == index.Keys
      ensures forall k :: k in index ==> index[k].head != null && Counts()[k] == index[k].head.cnt && 0 < Counts()[k]
    {
      forall k | k in index ensures index[k].head != null && Counts()[k] == index[k].head.cnt && 0 < Counts()[k] {
        assert ElementOk(Inner(), elems, index[k]);
        assert HeadOk(maxHead, minTail, heads, index[k].head);
      }
    }

    /** Moves an element to the head of the next higher count, which is put in if there is none. */
    method MoveUp(pt: Dnode<T>)
      requires Linked(null) && (pt in elems || Alone(pt))
      modifies this`heads, this`elems, pt, heads`l, heads`next, heads`prev, elems`next, elems`prev
      ensures Linked(null) && fresh(heads - old(heads)) && elems == old(elems) + {pt}
      ensures old(pt.head) != null && pt.head != null && pt.head.cnt == old(pt.head).cnt + 1
      ensures forall e :: e in elems && e != pt ==> e.head == old(e.head)
    {
      assert pt in elems ==> ElementOk(Inner(), elems, pt);
      var phead := pt.head;
      assert HeadOk(maxHead, minTail, heads, phead);
      var pheadPrev := phead.prev;
      assert HeadOk(maxHead, minTail, heads, pheadPrev);
      var newCnt := phead.cnt + 1;
      Remove(pt);
      assert HeadOk(maxHead, minTail, heads, pheadPrev) && HeadOk(maxHead, minTail, heads, minTail);
      if pheadPrev.cnt != newCnt {
        pheadPrev := InsertHead(pheadPrev, newCnt);
      } else {
        OpenAny(pheadPrev);
      }
      Add(pt, pheadPrev);
    }

    /** The element of a key, a new one if there is none. */
    method FindOrAdd(t: T) returns (pt: Dnode<T>)
      requires Valid()
      modifies this`index
      ensures index == old(index)[t := pt] && pt.key == Some(t) && Linked(null)
      ensures if t in old(index) then pt == old(index)[t] else fresh(pt) && Alone(pt)
      ensures minTail.cnt == 0
    {
      assert HeadOk(maxHead, minTail, heads, minTail);
      hide HeadsOk, FirstsOk, ElementsOk;
      if t in index {
        pt := index[t];
        assert index == index[t := pt];
      } else {
        pt := new Dnode<T>.Element(t, minTail);
        index := index[t := pt];
      }
    }

    method Inc(t: T)
      requires Valid()
      modifies this`index, this`heads, this`elems, heads`l, heads`next, heads`prev, elems
      ensures Valid() && fresh(heads - old(heads)) && fresh(elems - old(elems))
      ensures Counts() == old(Counts())[t := if t in old(Counts()) then old(Counts())[t] + 1 else 1]
    {
      CountsAreHeads();
      var pt := FindOrAdd(t);
      IndexedWith(old(index), elems, t, pt);
      hide Counts, CountOf, HeadsOk, FirstsOk, ElementsOk, Indexed;
      MoveUp(pt);
      CountsAreHeads();
    }

    /** Moves an element to the head of the next lower count, or out of the lists. */
    method MoveDown(pt: Dnode<T>) returns (gone: bool)
      requires Linked(null) && pt in elems
      modifies this`heads, this`elems, pt, heads`l, heads`next, heads`prev, elems`next, elems`prev
      ensures Linked(null) && fresh(heads - old(heads)) && elems == if gone then old(elems) - {pt} else old(elems)
      ensures old(pt.head) != null && gone == (old(pt.head).cnt == 1)
      ensures !gone ==> pt.head != null && pt.head.cnt + 1 == old(pt.head).cnt
      ensures forall e :: e in elems && e != pt ==> e.head == old(e.head)
    {
      assert ElementOk(Inner(), elems, pt);
      var phead := pt.head;
      assert HeadOk(maxHead, minTail, heads, phead);
      var pheadNext := phead.next;
      assert HeadOk(maxHead, minTail, heads, phead.prev) && HeadOk(maxHead, minTail, heads, pheadNext);
      var newCnt := phead.cnt - 1;
      Remove(pt);
      if newCnt == 0 {
        return true;
      }
      assert HeadOk(maxHead, minTail, heads, pheadNext);
      if pheadNext.cnt != newCnt {
        assert HeadOk(maxHead, minTail, heads, pheadNext.prev);
        pheadNext := InsertHead(pheadNext.prev, newCnt);
      } else {
        OpenAny(pheadNext);
      }
      Add(pt, pheadNext);
      return false;
    }

    method Dec(t: T)
      requires Valid()
      modifies this`index, this`heads, this`elems, heads`l, heads`next, heads`prev, elems
      ensures Valid() && fresh(heads - old(heads)) && fresh(elems - old(elems))
      ensures t !in old(Counts()) ==> Counts() == old(Counts())
      ensures t in old(Counts()) ==>
        Counts() == if old(Counts())[t] <= 1 then old(Counts()) - {t} else old(Counts())[t := old(Counts())[t] - 1]
    {
      if t !in index {
        return;
      }
      CountsAreHeads();
      IndexedWithout(index, elems, t);
      hide Counts, CountOf, HeadsOk, FirstsOk, ElementsOk, Indexed;
      var pt := index[t];
      var gone := MoveDown(pt);
      if gone {
        index := index - {t};
      }
      CountsAreHeads();
    }

    ghost function Above(h: Dnode<T>): set<Dnode<T>>
      reads this`heads
    {
      set x | x in heads && h.cnt < x.cnt
    }

    ghost function Below(h: Dnode<T>): set<Dnode<T>>
      reads this`heads, this`elems
    {
      set x | x in Inner() && x.cnt < h.cnt
    }

    /** The first head has the greatest count: every list of heads leads to it. */
    lemma {:induction false} FirstIsGreatest(h: Dnode<T>)
      requires Linked(null) && h in Inner()
      ensures maxHead.next != null && maxHead.next in Inner() && h.cnt <= maxHead.next.cnt
      decreases |Above(h)|
    {
      assert HeadOk(maxHead, minTail, heads, h) && HeadOk(maxHead, minTail, heads, h.prev);
      if h.prev != maxHead {
        Smaller(Above(h.prev), Above(h), h.prev);
        FirstIsGreatest(h.prev);
      }
    }

    lemma {:induction false} LastIsLeast(h: Dnode<T>)
      requires Linked(null) && h in Inner()
      ensures minTail.prev != null && minTail.prev in Inner() && minTail.prev.cnt <= h.cnt
      decreases |Below(h)|
    {
      assert HeadOk(maxHead, minTail, heads, h) && HeadOk(maxHead, minTail, heads, h.next);
      if h.next != minTail {
        Smaller(Below(h.next), Below(h), h.next);
        LastIsLeast(h.next);
      }
    }

    /** A key with the greatest count, and the count. */
    method GetMax() returns (key: Option<T>, cnt: nat)
      requires Valid()
      ensures index == map[] ==> key == None && cnt == 0
      ensures index != map[] ==> key.Some? && key.value in Counts() && Counts()[key.value] == cnt
      ensures forall k :: k in Counts() ==> Counts()[k] <= cnt
    {
      CountsAreHeads();
      assert HeadOk(maxHead, minTail, heads, maxHead);
      forall k | k in index ensures index[k].head in Inner() { assert ElementOk(Inner(), elems, index[k]); }
      forall h | h in Inner() ensures maxHead.next in Inner() && h.cnt <= maxHead.next.cnt { FirstIsGreatest(h); }
      var dnode := maxHead.next;
      assert HeadOk(maxHead, minTail, heads, dnode);
      assert dnode in Inner() ==> FirstOk(null, elems, dnode);
      if dnode.l == null {
        return None, 0;
      }
      return dnode.l.key, dnode.cnt;
    }

    /** A key with the least count, and the count. */
    method GetMin() returns (key: Option<T>, cnt: nat)
      requires Valid()
      ensures index == map[] ==> key == None && cnt == 0
      ensures index != map[] ==> key.Some? && key.value in Counts() && Counts()[key.value] == cnt
      ensures forall k :: k in Counts() ==> cnt <= Counts()[k]
    {
      CountsAreHeads();
      assert HeadOk(maxHead, minTail, heads, minTail);
      forall k | k in index ensures index[k].head in Inner() { assert ElementOk(Inner(), elems, index[k]); }
      forall h | h in Inner() ensures minTail.prev in Inner() && minTail.prev.cnt <= h.cnt { LastIsLeast(h); }
      var dnode := minTail.prev;
      assert HeadOk(maxHead, minTail, heads, dnode);
      assert dnode in Inner() ==> FirstOk(null, elems, dnode);
      if dnode.l == null {
        return None, 0;
      }
      return dnode.l.key, dnode.cnt;
    }

    lemma OpenAny(open: Dnode<T>)
      requires Linked(null)
      ensures Linked(open)
    {
      forall h | h in Inner() ensures FirstOk(open, elems, h) { assert FirstOk(null, elems, h); }
    }
  }

  lemma Smaller<X>(a: set<X>, b: set<X>, x: X)
    requires a <= b - {x} && x in b
    ensures |a| < |b|
  {
    FiniteSets.SubsetSize(a, b - {x});
  }
}
