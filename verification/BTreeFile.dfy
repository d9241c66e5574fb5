/**
  * The index file: fixed-capacity pages edited in place.
  *
  * A page is a slot array with a count and a link; the file is a growing table of pages.
  * Each method does what the C function it is named after does to those pages, and is
  * proved against the tree that the pages spell out: the ghost `tree` steps exactly as
  * `TreeRuns.Step` says, so everything proved there holds of the pages.
  */
module BTreeFile {
  import opened Sequences
  import opened KeyOrder
  import opened Tree
  import opened TreeInsert
  import opened TreeSearch
  import opened TreeRuns
  import opened PageFile

  /** Slots a page has room for; a leaf uses the first LEAF_MAX of them. */
  const SLOTS := INNER_MAX

  class Page {
    var kind: Kind
    var count: nat
    var link: nat
    const slots: array<Entry>

    constructor ()
      ensures kind == UnusedPage && count == 0 && link == 0
      ensures slots.Length == SLOTS && fresh(slots)
    {
      kind, count, link := UnusedPage, 0, 0;
      slots := new Entry[SLOTS](i => Entry(seq(KEY_SIZE, j => 0), 0, false));
    }

    ghost function Get(): View
      reads this, slots
    {
      View(kind, link, Used())
    }

    lemma Blank()
      requires count == 0
      ensures Used() == []
    {
    }

    /** The used slots. */
    ghost function Used(): seq<Entry>
      reads this, slots
    {
      if count <= slots.Length then slots[..count] else []
    }

    // The loops over the entries of one leaf.  `past` reports that the loop met a larger
    // key, after which the C functions return without following the chain.

    /** The insert_at loop: past every key not above the new one. */
    method FindInsertAt(key: Key) returns (at: nat)
      requires count <= slots.Length && Sorted(Used())
      ensures at == UpperBound(Used(), key)
    {
      hide Rank, Sorted;
      at := 0;
      while at < count && Cmp(slots[at].key, key) <= 0
        invariant at <= count
        invariant at > 0 ==> Rank(Used()[at - 1].key) <= Rank(key)
      {
        CmpIsRankOrder(slots[at].key, key);
        at := at + 1;
      }
      if at < count {
        CmpIsRankOrder(slots[at].key, key);
      }
      UpperBoundUnique(Used(), key, at);
    }

    method FindLive(key: Key) returns (found: bool, past: bool)
      requires count <= slots.Length && Sorted(Used())
      ensures found <==> HasLive(Used(), key)
      ensures past ==> !found && Used() != [] && Rank(key) < Rank(Used()[|Used()| - 1].key)
    {
      hide Rank, Sorted;
      for i := 0 to count
        invariant forall j | 0 <= j < i :: !LiveHit(Used()[j], key)
      {
        CmpIsRankOrder(slots[i].key, key);
        var cmp := Cmp(slots[i].key, key);
        if cmp > 0 {
          AboveFrom(Used(), i, key);
          return false, true;
        }
        assert LiveHit(Used()[i], key) <==> cmp == 0 && !slots[i].dead;
        if cmp == 0 && !slots[i].dead {
          return true, false;
        }
      }
      return false, false;
    }

    method Collect(key: Key, found: seq<nat>) returns (out: seq<nat>, past: bool)
      requires count <= slots.Length && Sorted(Used())
      ensures out == found + LiveOffsets(Used(), key)
      ensures past ==> Used() != [] && Rank(key) < Rank(Used()[|Used()| - 1].key)
    {
      hide Rank, Sorted;
      out := found;
      for i := 0 to count
        invariant out == found + LiveOffsets(Used()[..i], key)
      {
        CmpIsRankOrder(slots[i].key, key);
        var cmp := Cmp(slots[i].key, key);
        if cmp > 0 {
          AboveFrom(Used(), i, key);
          return out, true;
        }
        LiveOffsetsStep(Used(), i, key);
        if cmp == 0 && !slots[i].dead {
          out := out + [slots[i].offset];
        }
      }
      assert Used()[..count] == Used();
      past := false;
    }

    method CollectRange(low: Bound, high: Bound, found: seq<nat>) returns (out: seq<nat>, past: bool)
      requires count <= slots.Length && Sorted(Used())
      ensures out == found + Interval(Used(), low, high)
      ensures past ==> Used() != [] && !BelowHigh(Used()[|Used()| - 1], high)
    {
      hide Rank, Sorted, AboveLow, BelowHigh;
      out := found;
      for i := 0 to count
        invariant out == found + Interval(Used()[..i], low, high)
      {
        IntervalStep(Used(), i, low, high);
        AboveLowTest(slots[i], low);
        BelowHighTest(slots[i], high);
        if low.At? {
          var cmp := Cmp(slots[i].key, low.key);
          if cmp < 0 || (cmp == 0 && !low.inclusive) {
            continue;
          }
        }
        if high.At? {
          var cmp := Cmp(slots[i].key, high.key);
          if cmp > 0 || (cmp == 0 && !high.inclusive) {
            NotBelowFrom(Used(), i, low, high);
            return out, true;
          }
        }
        if !slots[i].dead {
          out := out + [slots[i].offset];
        }
      }
      assert Used()[..count] == Used();
      past := false;
    }

    method FindPair(key: Key, offset: nat) returns (at: nat, past: bool)
      requires count <= slots.Length && Sorted(Used())
      ensures at == FirstPair(Used(), key, offset)
      ensures past ==> at == |Used()| && Used() != [] && Rank(key) < Rank(Used()[|Used()| - 1].key)
    {
      hide Rank, Sorted;
      at := 0;
      while at < count
        invariant at <= count
        invariant forall j | 0 <= j < at :: !(Hit(Used()[j], key) && Used()[j].offset == offset)
      {
        CmpIsRankOrder(slots[at].key, key);
        var cmp := Cmp(slots[at].key, key);
        if cmp > 0 {
          AboveFrom(Used(), at, key);
          at := count;
          return at, true;
        }
        assert Hit(Used()[at], key) <==> cmp == 0;
        if cmp == 0 && slots[at].offset == offset {
          return at, false;
        }
        at := at + 1;
      }
      past := false;
    }
  }

  // ---------------------------------------------------------------- what a leaf scan may skip

  /** From a larger key on, nothing matches. */
  lemma AboveFrom(s: seq<Entry>, k: nat, key: Key)
    requires Sorted(s) && k < |s| && Rank(key) < Rank(s[k].key)
    ensures Rank(key) < Rank(s[|s| - 1].key)
    ensures forall j | k <= j < |s| :: !Hit(s[j], key)
    ensures LiveOffsets(s, key) == LiveOffsets(s[..k], key)
  {
    hide Rank;
    var tail := s[k..];
    forall j | k <= j < |s| ensures Rank(key) < Rank(s[j].key) {
      assert j > k ==> Rank(s[k].key) <= Rank(s[j].key);
    }
    assert forall i | 0 <= i < |tail| :: tail[i] == s[k + i];
    LiveOffsetsEmpty(tail, key);
    assert s == s[..k] + tail;
    LiveOffsetsConcat(s[..k], tail, key);
  }

  lemma {:induction false} LiveOffsetsStep(s: seq<Entry>, i: nat, key: Key)
    requires i < |s|
    ensures LiveOffsets(s[..i + 1], key)
            == LiveOffsets(s[..i], key) + if LiveHit(s[i], key) then [s[i].offset] else []
  {
    hide Rank, LiveHit;
    assert s[..i + 1] == s[..i] + [s[i]];
    LiveOffsetsConcat(s[..i], [s[i]], key);
    assert [s[i]][1..] == [];
  }

  lemma {:induction false} IntervalStep(s: seq<Entry>, i: nat, low: Bound, high: Bound)
    requires i < |s|
    ensures Interval(s[..i + 1], low, high) == Interval(s[..i], low, high)
            + if AboveLow(s[i], low) && BelowHigh(s[i], high) && !s[i].dead then [s[i].offset] else []
  {
    hide Rank, AboveLow, BelowHigh;
    assert s[..i + 1] == s[..i] + [s[i]];
    IntervalConcat(s[..i], [s[i]], low, high);
    assert [s[i]][1..] == [];
  }

  lemma AboveLowTest(e: Entry, low: Bound)
    ensures low.At? ==>
              (AboveLow(e, low) <==> !(Cmp(e.key, low.key) < 0 || (Cmp(e.key, low.key) == 0 && !low.inclusive)))
    ensures low.Unbounded? ==> AboveLow(e, low)
  {
    hide Rank, Cmp;
    if low.At? {
      CmpIsRankOrder(e.key, low.key);
    }
  }

  lemma BelowHighTest(e: Entry, high: Bound)
    ensures high.At? ==>
              (BelowHigh(e, high) <==> !(Cmp(e.key, high.key) > 0 || (Cmp(e.key, high.key) == 0 && !high.inclusive)))
    ensures high.Unbounded? ==> BelowHigh(e, high)
  {
    hide Rank, Cmp;
    if high.At? {
      CmpIsRankOrder(e.key, high.key);
    }
  }

  lemma {:induction false} NotBelowFrom(s: seq<Entry>, k: nat, low: Bound, high: Bound)
    requires Sorted(s) && k < |s| && !BelowHigh(s[k], high)
    ensures !BelowHigh(s[|s| - 1], high)
    ensures Interval(s, low, high) == Interval(s[..k], low, high)
  {
    hide Rank, AboveLow;
    var tail := s[k..];
    forall i | 0 <= i < |tail| ensures !BelowHigh(tail[i], high) {
      assert tail[i] == s[k + i];
      assert i > 0 ==> Rank(s[k].key) <= Rank(s[k + i].key);
    }
    assert tail[|tail| - 1] == s[|s| - 1];
    IntervalEmpty(tail, low, high);
    assert s == s[..k] + tail;
    IntervalConcat(s[..k], tail, low, high);
  }

  /** A scan that stopped past the key in `a` misses nothing in what follows. */
  lemma StopPast(a: seq<Entry>, b: seq<Entry>, key: Key)
    requires Sorted(a + b) && a != [] && Rank(key) < Rank(a[|a| - 1].key)
    ensures LiveOffsets(a + b, key) == LiveOffsets(a, key)
    ensures forall j | 0 <= j < |b| :: !Hit(b[j], key)
  {
    hide Rank, Sorted;
    var s := a + b;
    assert s[|a| - 1] == a[|a| - 1];
    AboveFrom(s, |a| - 1, key);
    assert s[..|a|] == a;
    LiveOffsetsStep(s, |a| - 1, key);
    assert forall j | 0 <= j < |b| :: s[|a| + j] == b[j];
  }

  lemma {:induction false} StopPastHigh(a: seq<Entry>, b: seq<Entry>, low: Bound, high: Bound)
    requires Sorted(a + b) && a != [] && !BelowHigh(a[|a| - 1], high)
    ensures Interval(a + b, low, high) == Interval(a, low, high)
  {
    hide Rank, Sorted, BelowHigh, AboveLow;
    var s := a + b;
    assert s[|a| - 1] == a[|a| - 1];
    NotBelowFrom(s, |a| - 1, low, high);
    assert s[..|a|] == a;
    IntervalStep(s, |a| - 1, low, high);
  }

  lemma HasLiveConcat(a: seq<Entry>, b: seq<Entry>, key: Key)
    ensures HasLive(a + b, key) <==> HasLive(a, key) || HasLive(b, key)
  {
    hide Rank, LiveHit;
    LiveOffsetsConcat(a, b, key);
    LiveOffsetsEmpty(a, key);
    LiveOffsetsEmpty(b, key);
    LiveOffsetsEmpty(a + b, key);
  }

  lemma {:induction false} FirstPairConcat(a: seq<Entry>, b: seq<Entry>, key: Key, offset: nat)
    ensures FirstPair(a + b, key, offset)
            == if FirstPair(a, key, offset) < |a| then FirstPair(a, key, offset) else |a| + FirstPair(b, key, offset)
  {
    hide Rank, Hit;
    if a == [] {
      assert a + b == b;
    } else {
      assert (a + b)[1..] == a[1..] + b;
      FirstPairConcat(a[1..], b, key, offset);
    }
  }

  lemma SortedPair(a: seq<Entry>, b: seq<Entry>)
    requires Sorted(a + b)
    ensures Sorted(a) && Sorted(b)
  {
    hide Rank, Sorted;
    assert a + b + [] == a + b;
    SortedParts(a, b, []);
  }

  lemma OneLeaf(v: seq<View>)
    requires |v| > 1 && v[1] == View(LeafPage, 0, [])
    ensures Matches(v, Leaf(1, []), 0)
  {
  }

  /** memmove and memcpy: the source is read before the target is written. */
  method MoveSlots(dst: array<Entry>, to: nat, src: array<Entry>, from: nat, n: nat)
    requires to + n <= dst.Length && from + n <= src.Length
    modifies dst
    ensures dst[..] == old(dst[..to] + src[from..from + n] + dst[to + n..])
  {
    forall i | 0 <= i < n {
      dst[to + i] := src[from + i];
    }
  }

  method ShiftIn(a: array<Entry>, n: nat, at: nat, slot: Entry)
    requires at <= n < a.Length
    modifies a
    ensures a[..n + 1] == Splice(old(a[..n]), at, slot)
  {
    MoveSlots(a, at + 1, a, at, n - at);
    a[at] := slot;
    assert a[..n + 1] == old(a[..at]) + [slot] + old(a[at..n]);
  }

  lemma SpliceSlots(s: seq<Entry>, at: nat, slot: Entry, before: seq<Entry>, behind: seq<Entry>)
    requires at <= |s| && before == s[..at] && behind == s[at..]
    ensures before + [slot] + behind == Splice(s, at, slot)
  {
  }

  method GatherSlots(a: array<Entry>, n: nat, at: nat, slot: Entry) returns (tmp: array<Entry>)
    requires at <= n <= a.Length
    ensures fresh(tmp) && tmp[..] == Splice(a[..n], at, slot)
  {
    tmp := new Entry[n + 1](i => slot);
    hide Splice;
    MoveSlots(tmp, 0, a, 0, at);
    assert tmp[..at] == a[..at];
    tmp[at] := slot;
    assert tmp[..at + 1] == a[..at] + [slot];
    MoveSlots(tmp, at + 1, a, at, n - at);
    assert tmp[..] == a[..at] + [slot] + a[at..n];
    SpliceSlots(a[..n], at, slot, a[..at], a[at..n]);
  }

  class BTree {
    const unique: bool
    var root: nat
    var pageCount: nat
    /** The mapping: page 0 is the header's, pages 1..pageCount are in use, the rest is spare. */
    var pages: seq<Page>

    ghost var view: seq<View>
    ghost var tree: Tree
    ghost var Repr: set<object>

    ghost predicate Heap()
      reads this, Repr
    {
      && this in Repr
      && |pages| == |view|
      && pageCount < |pages|
      && (forall i | 0 <= i < |pages| :: pages[i] in Repr && pages[i].slots in Repr)
      && (forall i | 0 <= i < |pages| ::
            pages[i].slots.Length == SLOTS && pages[i].count <= SLOTS && view[i] == pages[i].Get())
      && (forall i, j | 0 <= i < j < |pages| :: pages[i] != pages[j] && pages[i].slots != pages[j].slots)
    }

    lemma OwnsItself()
      requires Heap()
      ensures this in Repr
    {
    }

    lemma TwoPages(a: Page, b: Page)
      requires pages == [a, b] && view == [a.Get(), b.Get()] && pageCount < 2
      requires a != b && a.slots != b.slots && a.count <= SLOTS && b.count <= SLOTS
      requires a.slots.Length == b.slots.Length == SLOTS && {this, a, b, a.slots, b.slots} <= Repr
      ensures Heap()
    {
    }

    lemma PageView(no: nat)
      requires Heap() && (no < |view| || no <= pageCount)
      ensures this in Repr && no < |pages| == |view| && pageCount < |view|
      ensures pages[no] in Repr && pages[no].slots in Repr
      ensures view[no] == pages[no].Get() && pages[no].count == |view[no].slots| <= SLOTS == pages[no].slots.Length
    {
    }

    /** The abstract state of the file. */
    ghost function Abs(): Index
      reads this
    {
      Index(tree, pageCount + 1, unique)
    }

    ghost predicate Valid()
      reads this, Repr
    {
      && Heap()
      && root == tree.no
      && Matches(view, tree, 0)
      && Wf(Abs())
    }

    /** The pages now spell out `t`. */
    ghost method SetTree(t: Tree)
      requires Heap()
      modifies this`tree
      ensures Heap() && tree == t
    {
      tree := t;
    }

    // -------------------------------------------------------------- page edits

    /** One more zeroed page at the end of the mapping. */
    method AddBlank()
      requires Heap()
      modifies this
      ensures Heap() && fresh(Repr - old(Repr)) && old(Repr) <= Repr
      ensures view == old(view) + [View(UnusedPage, 0, [])] && old(pages) <= pages
      ensures pageCount == old(pageCount) && tree == old(tree) && root == old(root)
    {
      var blank := new Page();
      pages, view := pages + [blank], view + [blank.Get()];
      Repr := Repr + {blank, blank.slots};
    }

    /** ensure_capacity_for_page: the mapping doubles until page `no` fits, new pages zeroed. */
    method EnsureCapacity(no: nat)
      requires Heap()
      modifies this
      ensures Heap() && fresh(Repr - old(Repr)) && old(Repr) <= Repr
      ensures no < |view| && old(view) <= view
      ensures pageCount == old(pageCount) && tree == old(tree) && root == old(root)
    {
      var needed, cap := no + 1, |pages|;
      while cap < needed
        invariant cap >= |pages| > 0
        decreases needed - cap
      {
        cap := 2 * cap;
      }
      while |pages| < cap
        invariant Heap() && fresh(Repr - old(Repr)) && old(Repr) <= Repr
        invariant old(|view|) <= |view| <= cap && old(view) <= view
        invariant pageCount == old(pageCount) && tree == old(tree) && root == old(root)
      {
        AddBlank();
      }
    }

    /** allocate_page: the next page number, its page zeroed. */
    method AllocatePage() returns (no: nat)
      requires Heap()
      modifies Repr
      ensures Heap() && fresh(Repr - old(Repr)) && old(Repr) <= Repr
      ensures no == pageCount == old(pageCount) + 1
      ensures |view| >= old(|view|) && no < |view|
      ensures forall p | 0 <= p < old(|view|) && p != no :: view[p] == old(view[p])
      ensures tree == old(tree) && root == old(root)
    {
      hide Heap;
      OwnsItself();
      no := pageCount + 1;
      EnsureCapacity(no);
      FillPage(no, UnusedPage, 0, []);
      CountPage(no);
    }

    method CountPage(no: nat)
      requires Heap() && no < |view|
      modifies this`pageCount
      ensures Heap() && pageCount == no
    {
      pageCount := no;
    }

    /** Shift the slots from `at` up by one and write a new one there. */
    method InsertSlot(no: nat, at: nat, slot: Entry)
      requires Heap() && no < |view| && at <= |view[no].slots| < SLOTS
      modifies Repr
      ensures Heap() && Repr == old(Repr) && pages == old(pages)
      ensures view == old(view)[no := old(view[no]).(slots := Splice(old(view[no].slots), at, slot))]
      ensures pageCount == old(pageCount) && tree == old(tree) && root == old(root)
    {
      hide Splice;
      var page := pages[no];
      ShiftIn(page.slots, page.count, at, slot);
      page.count := page.count + 1;
      view := view[no := page.Get()];
    }

    /** The temporary buffer of a split: the page's slots with the new one among them. */
    method Gather(no: nat, at: nat, slot: Entry) returns (tmp: array<Entry>)
      requires Heap() && no < |view| && at <= |view[no].slots|
      ensures fresh(tmp) && tmp[..] == Splice(view[no].slots, at, slot)
    {
      hide Splice;
      tmp := GatherSlots(pages[no].slots, pages[no].count, at, slot);
    }

    /** Give a page its share of the temporary buffer, a type and a link. */
    method FillPage(no: nat, kind: Kind, link: nat, share: seq<Entry>)
      requires Heap() && no < |view| && |share| <= SLOTS
      modifies Repr
      ensures Heap() && Repr == old(Repr) && pages == old(pages)
      ensures view == old(view)[no := View(kind, link, share)]
      ensures pageCount == old(pageCount) && tree == old(tree) && root == old(root)
    {
      var page := pages[no];
      forall i | 0 <= i < |share| {
        page.slots[i] := share[i];
      }
      page.kind, page.count, page.link := kind, |share|, link;
      assert page.slots[..|share|] == share;
      view := view[no := page.Get()];
    }

    // -------------------------------------------------------------- search

    /** The child loop of an internal page: the last child not sent away by `key < separator`. */
    method FindChild(no: nat, key: Key, ghost t: Tree, ghost after: nat) returns (index: nat, child: nat)
      requires Heap() && Matches(view, t, after) && t.Node? && t.no == no
      ensures index == ChildIndex(t.seps, key) && child == t.kids[index].no
    {
      hide Rank;
      var page := pages[no];
      child := page.link;
      index := 0;
      while index < page.count
        invariant index <= page.count == |t.seps|
        invariant child == t.kids[index].no
        invariant forall i | 0 <= i < index :: Rank(t.seps[i]) <= Rank(key)
      {
        var slot := page.slots[index];
        assert slot == view[no].slots[index];
        CmpIsRankOrder(key, slot.key);
        if Cmp(key, slot.key) < 0 {
          break;
        }
        child := slot.offset;
        index := index + 1;
      }
    }

    /** descend_to_leaf from the root. */
    method DescendToLeaf(key: Key) returns (leaf: nat)
      requires Valid()
      ensures Chain(view, leaf, NosFrom(tree, key))
      ensures ChainFlat(view, NosFrom(tree, key)) == Flat(tree)[LeafStart(tree, key)..]
    {
      hide Rank, Sorted, LastLive, Times;
      leaf := root;
      ghost var t, after := tree, 0;
      while pages[leaf].kind == InnerPage
        invariant Matches(view, t, after) && Bounded(t) && leaf == t.no
        invariant DescendTo(t, key) == DescendTo(tree, key)
        decreases t
      {
        assert view[leaf].kind == InnerPage;
        var index;
        index, leaf := FindChild(leaf, key, t, after);
        MatchAllSplit(view, t.kids, index, after);
        t, after := t.kids[index], Head(t.kids[index + 1..], after);
      }
      assert t.Leaf?;
      ChainFromLeaf(view, tree, 0, [], key);
      FlatFromLeaf(view, tree, 0, key);
      assert NosFrom(tree, key) + [] == NosFrom(tree, key);
    }

    /** leftmost_leaf from the root. */
    method LeftmostLeaf() returns (leaf: nat)
      requires Valid()
      ensures Chain(view, leaf, LeafNos(tree)) && ChainFlat(view, LeafNos(tree)) == Flat(tree)
    {
      hide Rank, Sorted, LastLive, Times, Shaped;
      leaf := root;
      ghost var t, after := tree, 0;
      while pages[leaf].kind == InnerPage
        invariant Matches(view, t, after) && leaf == t.no && FirstLeaf(t) == FirstLeaf(tree)
        decreases t
      {
        assert view[leaf].kind == InnerPage;
        leaf := pages[leaf].link;
        MatchAllSplit(view, t.kids, 0, after);
        t, after := t.kids[0], Head(t.kids[1..], after);
      }
      TreeChain(view, tree, 0, []);
      LeavesFlat(view, tree, 0);
      assert LeafNos(tree) + [] == LeafNos(tree);
    }

    /** key_has_live_entry: along the chain from a leaf, up to the first larger key. */
    method KeyHasLiveEntry(from: nat, key: Key, ghost chain: seq<nat>) returns (found: bool)
      requires Heap() && Chain(view, from, chain) && Sorted(ChainFlat(view, chain))
      ensures found <==> HasLive(ChainFlat(view, chain), key)
    {
      hide Rank, LiveHit, Sorted, HasLive;
      var leaf := from;
      ghost var nos := chain;
      while leaf != 0
        invariant Chain(view, leaf, nos) && Sorted(ChainFlat(view, nos))
        invariant HasLive(ChainFlat(view, chain), key) <==> HasLive(ChainFlat(view, nos), key)
        decreases nos
      {
        ghost var here, later := view[leaf].slots, ChainFlat(view, nos[1..]);
        SortedPair(here, later);
        HasLiveConcat(here, later, key);
        var past;
        found, past := pages[leaf].FindLive(key);
        if found {
          return true;
        }
        if past {
          StopPast(here, later, key);
          LiveOffsetsEmpty(here, key);
          LiveOffsetsEmpty(here + later, key);
          return false;
        }
        leaf, nos := pages[leaf].link, nos[1..];
      }
      LiveOffsetsEmpty([], key);
      return false;
    }

    /** The chain loop of bson_btree_lookup. */
    method CollectFrom(from: nat, key: Key, ghost chain: seq<nat>) returns (out: seq<nat>)
      requires Heap() && Chain(view, from, chain) && Sorted(ChainFlat(view, chain))
      ensures out == LiveOffsets(ChainFlat(view, chain), key)
    {
      hide Rank, LiveHit, Sorted, LiveOffsets;
      LiveOffsetsEmpty([], key);
      var leaf := from;
      ghost var nos := chain;
      out := [];
      while leaf != 0
        invariant Chain(view, leaf, nos) && Sorted(ChainFlat(view, nos))
        invariant out + LiveOffsets(ChainFlat(view, nos), key) == LiveOffsets(ChainFlat(view, chain), key)
        decreases nos
      {
        ghost var here, later := view[leaf].slots, ChainFlat(view, nos[1..]);
        SortedPair(here, later);
        LiveOffsetsConcat(here, later, key);
        Assoc(out, LiveOffsets(here, key), LiveOffsets(later, key));
        var past;
        out, past := pages[leaf].Collect(key, out);
        if past {
          StopPast(here, later, key);
          return;
        }
        leaf, nos := pages[leaf].link, nos[1..];
      }
    }

    /** bson_btree_lookup. */
    method LookupKey(key: Key) returns (out: seq<nat>)
      requires Valid()
      ensures out == Lookup(tree, key)
    {
      hide Rank, Sorted, Times, Shaped, LastLive, Chain, Matches;
      var leaf := DescendToLeaf(key);
      SortedSuffix(Flat(tree), LeafStart(tree, key));
      out := CollectFrom(leaf, key, NosFrom(tree, key));
    }

    /** The chain loop of bson_btree_range. */
    method CollectRangeFrom(from: nat, low: Bound, high: Bound, ghost chain: seq<nat>) returns (out: seq<nat>)
      requires Heap() && Chain(view, from, chain) && Sorted(ChainFlat(view, chain))
      ensures out == Interval(ChainFlat(view, chain), low, high)
    {
      hide Rank, AboveLow, BelowHigh, Sorted, Interval;
      IntervalEmpty([], low, high);
      var leaf := from;
      ghost var nos := chain;
      out := [];
      while leaf != 0
        invariant Chain(view, leaf, nos) && Sorted(ChainFlat(view, nos))
        invariant out + Interval(ChainFlat(view, nos), low, high) == Interval(ChainFlat(view, chain), low, high)
        decreases nos
      {
        ghost var here, later := view[leaf].slots, ChainFlat(view, nos[1..]);
        SortedPair(here, later);
        IntervalConcat(here, later, low, high);
        Assoc(out, Interval(here, low, high), Interval(later, low, high));
        var past;
        out, past := pages[leaf].CollectRange(low, high, out);
        if past {
          StopPastHigh(here, later, low, high);
          return;
        }
        leaf, nos := pages[leaf].link, nos[1..];
      }
    }

    /** bson_btree_range. */
    method RangeKeys(low: Bound, high: Bound) returns (out: seq<nat>)
      requires Valid()
      ensures out == RangeScan(tree, low, high)
    {
      hide Rank, Sorted, Times, Shaped, LastLive, Chain, Matches;
      if low.At? {
        var leaf := DescendToLeaf(low.key);
        SortedSuffix(Flat(tree), LeafStart(tree, low.key));
        out := CollectRangeFrom(leaf, low, high, NosFrom(tree, low.key));
      } else {
        var leaf := LeftmostLeaf();
        out := CollectRangeFrom(leaf, low, high, LeafNos(tree));
        assert Flat(tree)[0..] == Flat(tree);
      }
    }

    // -------------------------------------------------------------- delete

    /** entry[...] |= DEAD */
    method MarkSlot(no: nat, j: nat)
      requires Heap() && no < |view| && j < |view[no].slots|
      modifies Repr
      ensures Heap() && Repr == old(Repr)
      ensures view == Marked(old(view), no, j)
      ensures pageCount == old(pageCount) && tree == old(tree) && root == old(root)
    {
      var page := pages[no];
      page.slots[j] := page.slots[j].(dead := true);
      assert page.Used() == Kill(old(view[no].slots), j);
      view := view[no := page.Get()];
    }

    /** The chain loop of bson_btree_delete: the page and slot of the first such pair, if any. */
    method FindPairFrom(from: nat, key: Key, offset: nat, ghost chain: seq<nat>)
        returns (found: bool, no: nat, j: nat, ghost before: seq<nat>, ghost later: seq<nat>)
      requires Heap() && Chain(view, from, chain) && Sorted(ChainFlat(view, chain))
      ensures !found ==> FirstPair(ChainFlat(view, chain), key, offset) == |ChainFlat(view, chain)|
      ensures found ==> no < |view| && j < |view[no].slots| && chain == before + [no] + later
      ensures found ==> FirstPair(ChainFlat(view, chain), key, offset) == |ChainFlat(view, before)| + j
    {
      hide Rank, Sorted, Hit, FirstPair;
      var leaf := from;
      no, j, before, later := 0, 0, [], chain;
      FirstPairNone([], key, offset);
      while leaf != 0
        invariant Chain(view, leaf, later) && Sorted(ChainFlat(view, later))
        invariant chain == before + later
        invariant FirstPair(ChainFlat(view, chain), key, offset)
                  == |ChainFlat(view, before)| + FirstPair(ChainFlat(view, later), key, offset)
        invariant |ChainFlat(view, chain)| == |ChainFlat(view, before)| + |ChainFlat(view, later)|
        decreases later
      {
        ghost var here, rest := view[leaf].slots, ChainFlat(view, later[1..]);
        SortedPair(here, rest);
        FirstPairConcat(here, rest, key, offset);
        var past;
        j, past := pages[leaf].FindPair(key, offset);
        if past {
          StopPast(here, rest, key);
          FirstPairNone(rest, key, offset);
          return false, 0, 0, [], [];
        }
        TakeOne(before, later);
        if j < pages[leaf].count {
          return true, leaf, j, before, later[1..];
        }
        ChainFlatConcat(view, before, [leaf]);
        OnePage(view, leaf);
        before, later := before + [leaf], later[1..];
        leaf := pages[leaf].link;
      }
      found := false;
    }

    /** bson_btree_delete. */
    method DeleteKey(key: Key, offset: nat)
      requires Valid()
      modifies Repr
      ensures Valid() && Repr == old(Repr)
      ensures Abs() == Step(old(Abs()), DeleteOp(key, offset)).0
    {
      hide Rank, Sorted, Times, Shaped, LastLive, Chain, Matches, Step, FirstPair, KillAt, ChainFlat, NosFrom;
      ghost var t := tree;
      var leaf := DescendToLeaf(key);
      SortedSuffix(Flat(t), LeafStart(t, key));
      var found, no, j;
      ghost var before, later;
      found, no, j, before, later := FindPairFrom(leaf, key, offset, NosFrom(t, key));
      StepKeepsWf(Abs(), DeleteOp(key, offset));
      DeleteStep(Abs(), key, offset);
      KillAtNumbers(t, DeleteAt(t, key, offset));
      if found {
        DeletePlace(view, Abs(), key, offset, before, no, later, j);
        MarkSlot(no, j);
        SetTree(Delete(t, key, offset));
      } else {
        NothingToKill(t, DeleteAt(t, key, offset));
      }
    }

    // -------------------------------------------------------------- insert

    /** The leaf part of insert_recursive, after the uniqueness check. */
    method PutInLeaf(no: nat, e: Entry) returns (didSplit: bool, splitKey: Key, splitPage: nat)
      requires Heap() && no <= pageCount && view[no].kind == LeafPage
      requires |view[no].slots| <= LEAF_MAX && Sorted(view[no].slots)
      modifies Repr
      ensures Heap() && fresh(Repr - old(Repr)) && old(Repr) <= Repr
      ensures tree == old(tree) && root == old(root) && |view| >= old(|view|)
      ensures didSplit <==> old(|view[no].slots|) == LEAF_MAX
      ensures !didSplit ==> pageCount == old(pageCount)
      ensures !didSplit ==> view[no] == View(LeafPage, old(view[no].link), Inserted(old(view[no].slots), e))
      ensures didSplit ==> splitPage == pageCount == old(pageCount) + 1
      ensures didSplit ==>
                LeafHalves(view, no, splitPage, splitKey, old(view[no].link), Inserted(old(view[no].slots), e))
      ensures forall p | 0 <= p <= old(pageCount) && p != no :: view[p] == old(view)[p]
    {
      hide Rank, Sorted, Splice, UpperBound;
      splitKey, splitPage := e.key, 0;
      assert view[no] == pages[no].Get();
      var at := pages[no].FindInsertAt(e.key);
      var count := pages[no].count;
      if count < LEAF_MAX {
        InsertSlot(no, at, e);
        return false, splitKey, 0;
      }
      splitKey, splitPage := CutLeaf(no, at, e);
      didSplit := true;
    }

    /** The full leaf: 181 slots through the temporary buffer onto two pages. */
    method CutLeaf(no: nat, at: nat, e: Entry) returns (splitKey: Key, splitPage: nat)
      requires Heap() && no <= pageCount && at <= |view[no].slots| == LEAF_MAX
      modifies Repr
      ensures Heap() && fresh(Repr - old(Repr)) && old(Repr) <= Repr
      ensures tree == old(tree) && root == old(root) && |view| >= old(|view|)
      ensures splitPage == pageCount == old(pageCount) + 1
      ensures LeafHalves(view, no, splitPage, splitKey, old(view[no].link), Splice(old(view[no].slots), at, e))
      ensures forall p | 0 <= p <= old(pageCount) && p != no :: view[p] == old(view)[p]
    {
      hide Rank, Splice, Heap;
      PageView(no);
      var tmp := Gather(no, at, e);
      var total := pages[no].count + 1;
      var leftN := (total + 1) / 2;
      var left, right := tmp[..leftN], tmp[leftN..];
      splitPage := AllocatePage();
      PageView(no);
      var oldNext := pages[no].link;
      FillPage(no, LeafPage, splitPage, left);
      FillPage(splitPage, LeafPage, oldNext, right);
      splitKey := right[0].key;
    }

    /** The internal part of insert_recursive, after a child has split: hang the new sibling. */
    method AttachSibling(no: nat, c: nat, sep: Key, child: nat) returns (didSplit: bool, splitKey: Key, splitPage: nat)
      requires Heap() && no <= pageCount && view[no].kind == InnerPage
      requires c <= |view[no].slots| <= INNER_MAX
      modifies Repr
      ensures Heap() && fresh(Repr - old(Repr)) && old(Repr) <= Repr
      ensures tree == old(tree) && root == old(root) && |view| >= old(|view|)
      ensures didSplit <==> old(|view[no].slots|) == INNER_MAX
      ensures !didSplit ==> pageCount == old(pageCount)
      ensures !didSplit ==>
                view[no] ==
                View(InnerPage, old(view[no].link), Splice(old(view[no].slots), c, Entry(sep, child, false)))
      ensures didSplit ==> splitPage == pageCount == old(pageCount) + 1
      ensures didSplit ==> InnerHalves(view, no, splitPage, splitKey, old(view[no].link),
                                       Splice(old(view[no].slots), c, Entry(sep, child, false)))
      ensures forall p | 0 <= p <= old(pageCount) && p != no :: view[p] == old(view)[p]
    {
      hide Rank, Splice;
      splitKey, splitPage := sep, 0;
      assert view[no] == pages[no].Get();
      var count := pages[no].count;
      if count < INNER_MAX {
        InsertSlot(no, c, Entry(sep, child, false));
        return false, splitKey, 0;
      }
      splitKey, splitPage := CutInner(no, c, Entry(sep, child, false));
      didSplit := true;
    }

    /** The full internal page: 191 slots onto two pages, the middle one promoted. */
    method CutInner(no: nat, c: nat, slot: Entry) returns (splitKey: Key, splitPage: nat)
      requires Heap() && no <= pageCount && c <= |view[no].slots| == INNER_MAX
      modifies Repr
      ensures Heap() && fresh(Repr - old(Repr)) && old(Repr) <= Repr
      ensures tree == old(tree) && root == old(root) && |view| >= old(|view|)
      ensures splitPage == pageCount == old(pageCount) + 1
      ensures InnerHalves(view, no, splitPage, splitKey, old(view[no].link), Splice(old(view[no].slots), c, slot))
      ensures forall p | 0 <= p <= old(pageCount) && p != no :: view[p] == old(view)[p]
    {
      hide Rank, Splice, Heap;
      PageView(no);
      var leftmost := pages[no].link;
      var tmp := Gather(no, c, slot);
      var total := pages[no].count + 1;
      var mid := total / 2;
      var left, promoted, right := tmp[..mid], tmp[mid], tmp[mid + 1..];
      splitPage := AllocatePage();
      FillPage(no, InnerPage, leftmost, left);
      FillPage(splitPage, InnerPage, promoted.offset, right);
      splitKey := promoted.key;
    }

    /** insert_recursive on a leaf page: the uniqueness check, then the insertion. */
    method InsertAtLeaf(no: nat, e: Entry, ghost t: Tree, ghost after: nat, ghost rest: seq<nat>)
        returns (duplicate: bool, didSplit: bool, splitKey: Key, splitPage: nat)
      requires Heap() && Matches(view, t, after) && Bounded(t) && Owned(t, pageCount) && t.no == no && t.Leaf?
      requires Chain(view, after, rest) && Sorted(Flat(t) + ChainFlat(view, rest))
      modifies Repr
      ensures Heap() && fresh(Repr - old(Repr)) && old(Repr) <= Repr
      ensures tree == old(tree) && root == old(root)
      ensures duplicate <==> unique && HasLive(Flat(t)[LeafStart(t, e.key)..] + ChainFlat(old(view), rest), e.key)
      ensures duplicate ==> view == old(view) && pageCount == old(pageCount)
      ensures !duplicate ==>
                Grew(old(view), view, t, after, e, old(pageCount), pageCount, didSplit, splitKey, splitPage)
    {
      hide Rank, Sorted, HasLive, Chain, Matches, InsertBelow, Flat, LeafStart, Grew, ChainFlat;
      ghost var n := pageCount;
      splitKey, splitPage := e.key, 0;
      PageOf(view, t, after);
      LeafFacts(view, t, after, rest, n, e.key);
      if unique {
        var found := KeyHasLiveEntry(no, e.key, [no] + rest);
        if found {
          return true, false, splitKey, 0;
        }
      }
      didSplit, splitKey, splitPage := PutInLeaf(no, e);
      LeafGrew(old(view), view, t, after, e, n, pageCount, didSplit, splitKey, splitPage);
      duplicate := false;
    }

    /** insert_recursive. */
    method InsertRecursive(no: nat, e: Entry, ghost t: Tree, ghost after: nat, ghost rest: seq<nat>)
        returns (duplicate: bool, didSplit: bool, splitKey: Key, splitPage: nat)
      requires Heap() && Matches(view, t, after) && Bounded(t) && Owned(t, pageCount) && t.no == no
      requires Chain(view, after, rest) && Sorted(Flat(t) + ChainFlat(view, rest))
      modifies Repr
      ensures Heap() && fresh(Repr - old(Repr)) && old(Repr) <= Repr
      ensures tree == old(tree) && root == old(root)
      ensures duplicate <==> unique && HasLive(Flat(t)[LeafStart(t, e.key)..] + ChainFlat(old(view), rest), e.key)
      ensures duplicate ==> view == old(view) && pageCount == old(pageCount)
      ensures !duplicate ==>
                Grew(old(view), view, t, after, e, old(pageCount), pageCount, didSplit, splitKey, splitPage)
      decreases t
    {
      hide Rank, Sorted, HasLive, Chain, Matches, InsertBelow, Flat, LeafStart, Grew, ChainFlat, LeafNosAll;
      ghost var n := pageCount;
      PageOf(view, t, after);
      assert view[no] == pages[no].Get();
      if pages[no].kind == LeafPage {
        duplicate, didSplit, splitKey, splitPage := InsertAtLeaf(no, e, t, after, rest);
        return;
      }
      var c, child := FindChild(no, e.key, t, after);
      NodeChain(view, t, after, c, n, rest);
      NodeFlat(view, t, after, c, rest, e.key);
      ghost var after', rest' := Head(t.kids[c + 1..], after), LeafNosAll(t.kids[c + 1..]) + rest;
      duplicate, didSplit, splitKey, splitPage := InsertRecursive(child, e, t.kids[c], after', rest');
      if duplicate {
        return true, false, splitKey, splitPage;
      }
      ghost var v', m := view, pageCount;
      if !didSplit {
        KeptGrew(old(view), view, t, after, c, e, n, m, splitKey, splitPage);
        return false, false, splitKey, splitPage;
      }
      SplitBelow(old(view), v', t, after, c, e, n, m, splitKey, splitPage);
      ghost var sep, page := splitKey, splitPage;
      didSplit, splitKey, splitPage := AttachSibling(no, c, splitKey, splitPage);
      SplitGrew(old(view), v', view, t, after, c, e, n, m, pageCount, sep, page, didSplit, splitKey, splitPage);
    }

    /** bson_btree_create: a header page and one empty root leaf. */
    constructor (unique: bool)
      ensures Valid() && fresh(Repr) && Abs() == Create(unique)
    {
      this.unique := unique;
      root, pageCount := 1, 1;
      var header := new Page();
      var leaf := new Page();
      pages := [header, leaf];
      new;
      hide Wf, Matches, Create, Page.Used, Heap;
      leaf.kind := LeafPage;
      view := [View(UnusedPage, 0, []), View(LeafPage, 0, [])];
      tree := Leaf(1, []);
      Repr := {this, header, header.slots, leaf, leaf.slots};
      header.Blank();
      leaf.Blank();
      TwoPages(header, leaf);
      OneLeaf(view);
      EmptyIndex(unique);
    }

    /** bson_btree_insert: the descent, then a new root above a root that split. */
    method InsertKey(key: Key, offset: nat) returns (duplicate: bool)
      requires Valid()
      modifies Repr
      ensures Valid() && fresh(Repr - old(Repr))
      ensures Abs() == Step(old(Abs()), InsertOp(key, offset)).0
      ensures Step(old(Abs()), InsertOp(key, offset)).1 == if duplicate then DuplicateKey else Ok
    {
      hide Rank, Sorted, Times, Shaped, LastLive, HasLive, Matches, Step, InsertBelow, Flat, LeafStart, Grew, Insert;
      hide ChainFlat, Owned, Wf, Heap;
      OwnsItself();
      ghost var x, e, n := Abs(), Entry(key, offset, false), pageCount;
      ghost var op := InsertOp(key, offset);
      WfOwned(x);
      StepKeepsWf(x, op);
      var didSplit, splitKey, splitPage;
      ghost var v := view;
      duplicate, didSplit, splitKey, splitPage := InsertRecursive(root, Entry(key, offset, false), tree, 0, []);
      InsertReply(x, op, v, duplicate);
      if duplicate {
        return;
      }
      if didSplit {
        ghost var v' := view;
        GrewPages(v, view, x.tree, e, n, pageCount, splitKey, splitPage);
        GrowRoot(splitKey, splitPage);
        RootSplit(v, v', view, x, e, n, root - 1, splitKey, splitPage);
      } else {
        RootKept(v, view, x, e, n, pageCount, splitKey, splitPage);
      }
      SetTree(Step(x, op).0.tree);
    }

    method SetRoot(no: nat)
      requires Heap()
      modifies this`root
      ensures Heap() && root == no
    {
      root := no;
    }

    /** The new root page over the old root and its new sibling. */
    method GrowRoot(splitKey: Key, splitPage: nat)
      requires Heap()
      modifies Repr
      ensures Heap() && fresh(Repr - old(Repr)) && old(Repr) <= Repr
      ensures root == pageCount == old(pageCount) + 1 < |view| && |view| >= old(|view|) && tree == old(tree)
      ensures view[root] == View(InnerPage, old(root), [Entry(splitKey, splitPage, false)])
      ensures forall p | 0 <= p < old(|view|) && p != root :: view[p] == old(view[p])
    {
      hide Heap;
      OwnsItself();
      var newRoot := AllocatePage();
      OwnsItself();
      FillPage(newRoot, InnerPage, root, [Entry(splitKey, splitPage, false)]);
      SetRoot(newRoot);
    }
  }

  lemma EmptyIndex(unique: bool)
    ensures Create(unique) == Index(Leaf(1, []), 2, unique) && Wf(Create(unique))
  {
    hide Wf;
    CreateWf(unique);
  }

  lemma WfOwned(x: Index)
    requires Wf(x)
    ensures Owned(x.tree, x.next - 1) && Bounded(x.tree)
    ensures forall v: seq<View> :: Sorted(Flat(x.tree) + ChainFlat(v, [])) && Chain(v, 0, [])
  {
    hide Rank, Sorted, LastLive, Shaped, Times;
    forall v: seq<View> ensures Sorted(Flat(x.tree) + ChainFlat(v, [])) {
      assert Flat(x.tree) + ChainFlat(v, []) == Flat(x.tree);
    }
  }

  lemma {:induction false} InsertReply(x: Index, op: Op, v: seq<View>, duplicate: bool)
    requires Bounded(x.tree) && op.InsertOp?
    requires duplicate <==> x.unique && HasLive(Flat(x.tree)[LeafStart(x.tree, op.key)..] + ChainFlat(v, []), op.key)
    ensures Step(x, op).1 == if duplicate then DuplicateKey else Ok
    ensures duplicate ==> Step(x, op).0 == x
    ensures !duplicate ==>
              Step(x, op).0 == Index(Insert(x.tree, Entry(op.key, op.offset, false), x.next).0,
                                     Insert(x.tree, Entry(op.key, op.offset, false), x.next).1, x.unique)
  {
    hide Rank, Insert, Flat, LeafStart, HasLive;
    var s := Flat(x.tree)[LeafStart(x.tree, op.key)..];
    assert s + ChainFlat(v, []) == s;
  }

  lemma {:induction false} RootKept(v: seq<View>, v': seq<View>, x: Index, e: Entry, n: nat, m: nat, sep: Key,
                                    page: nat)
    requires Bounded(x.tree) && x.next == n + 1
    requires Grew(v, v', x.tree, 0, e, n, m, false, sep, page)
    ensures var r := Insert(x.tree, e, x.next); r.1 == m + 1 && r.0.no == x.tree.no && Matches(v', r.0, 0)
  {
    hide Rank, InsertBelow, Matches;
  }

  lemma {:induction false} GrewPages(v: seq<View>, v': seq<View>, t: Tree, e: Entry, n: nat, m: nat, sep: Key,
                                     page: nat)
    requires Bounded(t) && Grew(v, v', t, 0, e, n, m, true, sep, page)
    ensures 0 < t.no < |v'|
  {
    hide Rank, InsertBelow;
  }

  lemma {:induction false} RootSplit(v: seq<View>, v': seq<View>, v'': seq<View>, x: Index, e: Entry, n: nat,
                                     m: nat, sep: Key, page: nat)
    requires Bounded(x.tree) && x.next == n + 1 && Owned(x.tree, n)
    requires Grew(v, v', x.tree, 0, e, n, m, true, sep, page)
    requires |v'| <= |v''| && m + 1 < |v''| && forall p | 0 <= p < |v'| && p != m + 1 :: v''[p] == v'[p]
    requires v''[m + 1] == View(InnerPage, x.tree.no, [Entry(sep, page, false)])
    ensures var r := Insert(x.tree, e, x.next); r.1 == m + 2 && r.0.no == m + 1 && Matches(v'', r.0, 0)
  {
    hide Rank, InsertBelow, Matches;
    var g := InsertBelow(x.tree, e, n + 1).0;
    forall p | 0 <= p < |v'| && (Times(g.left, p) > 0 || Times(g.right, p) > 0) ensures v''[p] == v'[p] {
      InsertBelowTimes(x.tree, e, n + 1, p);
      assert Times(x.tree, p) <= if p <= n then 1 else 0;
    }
    MatchesFrame(v', v'', g.left, FirstLeaf(g.right));
    MatchesFrame(v', v'', g.right, 0);
    MatchAllPair(v'', g.left, g.right, 0);
    AttachedWhole(v'', m + 1, [g.left, g.right], [sep], 0);
  }

  /** The outcome of an insertion below `t`: the pages now spell out what `InsertBelow` computes. */
  ghost predicate Grew(v: seq<View>, v': seq<View>, t: Tree, after: nat, e: Entry, n: nat, m: nat,
                       didSplit: bool, sep: Key, page: nat)
    requires Bounded(t)
  {
    var r := InsertBelow(t, e, n + 1);
    && r.1 == m + 1
    && MatchesGrown(v', r.0, t.no, after)
    && Undisturbed(v, v', t, n)
    && didSplit == r.0.Split?
    && (didSplit ==> sep == r.0.sep && page == r.0.right.no)
  }

  lemma {:induction false} PageOf(v: seq<View>, t: Tree, after: nat)
    requires Matches(v, t, after)
    ensures t.no < |v| && (v[t.no].kind == LeafPage <==> t.Leaf?)
    ensures v[t.no].kind == InnerPage <==> t.Node?
    ensures t.Leaf? ==> v[t.no].slots == Flat(t)
    ensures t.Node? ==> |v[t.no].slots| == |t.seps| && |t.kids| == |t.seps| + 1
  {
  }

  lemma {:induction false} LeafFacts(v: seq<View>, t: Tree, after: nat, rest: seq<nat>, n: nat, key: Key)
    requires Matches(v, t, after) && t.Leaf? && Bounded(t) && Owned(t, n) && Chain(v, after, rest)
    requires Sorted(Flat(t) + ChainFlat(v, rest))
    ensures Chain(v, t.no, [t.no] + rest) && Sorted(ChainFlat(v, [t.no] + rest)) && Sorted(v[t.no].slots)
    ensures ChainFlat(v, [t.no] + rest) == Flat(t)[LeafStart(t, key)..] + ChainFlat(v, rest)
    ensures |v[t.no].slots| <= LEAF_MAX && t.no <= n
  {
    hide Rank, Sorted;
    assert ([t.no] + rest)[1..] == rest;
    SortedPair(Flat(t), ChainFlat(v, rest));
    assert Times(t, t.no) == 1;
  }

  lemma NodeChain(v: seq<View>, t: Tree, after: nat, c: nat, n: nat, rest: seq<nat>)
    requires Matches(v, t, after) && t.Node? && Bounded(t) && Owned(t, n) && Chain(v, after, rest)
    requires c < |t.kids|
    ensures Matches(v, t.kids[c], Head(t.kids[c + 1..], after)) && Bounded(t.kids[c]) && Owned(t.kids[c], n)
    ensures Chain(v, Head(t.kids[c + 1..], after), LeafNosAll(t.kids[c + 1..]) + rest)
    ensures t.no <= n
  {
    hide Chain;
    MatchAllSplit(v, t.kids, c, after);
    OwnedKid(t, c, n);
    TreesChain(v, t.kids[c + 1..], after, rest);
  }

  lemma {:induction false} ChainRest(v: seq<View>, t: Tree, after: nat, c: nat, rest: seq<nat>)
    requires Matches(v, t, after) && t.Node? && c < |t.kids|
    ensures ChainFlat(v, LeafNosAll(t.kids[c + 1..]) + rest) == FlatAll(t.kids[c + 1..]) + ChainFlat(v, rest)
  {
    MatchAllSplit(v, t.kids, c, after);
    LeavesFlatAll(v, t.kids[c + 1..], after);
    ChainFlatConcat(v, LeafNosAll(t.kids[c + 1..]), rest);
  }

  lemma {:induction false} NodeFlat(v: seq<View>, t: Tree, after: nat, c: nat, rest: seq<nat>, key: Key)
    requires Matches(v, t, after) && t.Node? && Bounded(t) && Sorted(Flat(t) + ChainFlat(v, rest))
    requires c == ChildIndex(t.seps, key)
    ensures Sorted(Flat(t.kids[c]) + ChainFlat(v, LeafNosAll(t.kids[c + 1..]) + rest))
    ensures Flat(t.kids[c])[LeafStart(t.kids[c], key)..] + ChainFlat(v, LeafNosAll(t.kids[c + 1..]) + rest)
            == Flat(t)[LeafStart(t, key)..] + ChainFlat(v, rest)
  {
    hide Rank, Sorted, Matches, ChainFlat, LeafNosAll, FlatAll;
    ChainRest(v, t, after, c, rest);
    FlatAllSplit(t.kids, c);
    var a, x, b, d := FlatAll(t.kids[..c]), Flat(t.kids[c]), FlatAll(t.kids[c + 1..]), ChainFlat(v, rest);
    assert Flat(t) == a + x + b;
    assert LeafStart(t, key) == |a| + LeafStart(t.kids[c], key);
    Regrouped(a, x, b, d, LeafStart(t.kids[c], key));
  }

  lemma Regrouped(a: seq<Entry>, x: seq<Entry>, b: seq<Entry>, d: seq<Entry>, at: nat)
    requires at <= |x| && Sorted(a + x + b + d)
    ensures Sorted(x + (b + d))
    ensures x[at..] + (b + d) == (a + x + b)[|a| + at..] + d
  {
    hide Rank, Sorted;
    assert (a + x + b) + d == a + (x + (b + d));
    SortedPair(a, x + (b + d));
    SuffixMiddle(a, x, b, at);
    Assoc(x[at..], b, d);
  }

  lemma {:induction false} LeafGrew(v: seq<View>, v': seq<View>, t: Tree, after: nat, e: Entry, n: nat, m: nat,
                 didSplit: bool, sep: Key, page: nat)
    requires Matches(v, t, after) && t.Leaf? && Bounded(t) && n < |v| <= |v'|
    requires didSplit <==> |v[t.no].slots| == LEAF_MAX
    requires !didSplit ==> m == n && v'[t.no] == View(LeafPage, v[t.no].link, Inserted(v[t.no].slots, e))
    requires didSplit ==> page == m == n + 1 && page < |v'|
    requires didSplit ==> LeafHalves(v', t.no, page, sep, v[t.no].link, Inserted(v[t.no].slots, e))
    requires forall p | 0 <= p <= n && p != t.no :: v'[p] == v[p]
    ensures Grew(v, v', t, after, e, n, m, didSplit, sep, page)
  {
    hide Rank, Splice, UpperBound;
  }

  lemma KeptGrew(v: seq<View>, v': seq<View>, t: Tree, after: nat, c: nat, e: Entry, n: nat, m: nat, sep: Key,
                 page: nat)
    requires Matches(v, t, after) && t.Node? && Bounded(t) && Owned(t, n) && c == ChildIndex(t.seps, e.key)
    requires Grew(v, v', t.kids[c], Head(t.kids[c + 1..], after), e, n, m, false, sep, page)
    ensures Grew(v, v', t, after, e, n, m, false, sep, page)
  {
    hide Rank, Matches;
    InsertKeepsFirstLeaf(t.kids[c], e, n + 1);
    KeptChild(v, v', t, after, c, InsertBelow(t.kids[c], e, n + 1).0.t, n);
    UndisturbedUp(v, v', t, c, n);
  }

  lemma UndisturbedUp(v: seq<View>, v': seq<View>, t: Tree, c: nat, n: nat)
    requires t.Node? && c < |t.kids| && Undisturbed(v, v', t.kids[c], n)
    ensures Undisturbed(v, v', t, n)
  {
    forall p | 0 <= p < |v| && p <= n && Times(t, p) == 0 ensures Times(t.kids[c], p) == 0 {
      TimesAllSplit(t.kids, c, p);
    }
  }

  /** The facts of a split child that the parent's page edit needs. */
  lemma {:induction false} SplitBelow(v: seq<View>, v': seq<View>, t: Tree, after: nat, c: nat, e: Entry, n: nat,
                                      m: nat, sep: Key, page: nat)
    requires Matches(v, t, after) && t.Node? && Bounded(t) && Owned(t, n) && c == ChildIndex(t.seps, e.key)
    requires Grew(v, v', t.kids[c], Head(t.kids[c + 1..], after), e, n, m, true, sep, page)
    requires m < |v'|
    ensures v'[t.no] == v[t.no] && v[t.no].kind == InnerPage && c <= |v[t.no].slots| <= INNER_MAX && t.no <= n <= m
  {
    hide Rank, InsertBelow;
    OwnedKid(t, c, n);
  }

  lemma {:induction false} SplitGrew(v: seq<View>, v': seq<View>, v'': seq<View>, t: Tree, after: nat, c: nat, e: Entry,
                  n: nat, m: nat, m': nat, sep: Key, page: nat, didSplit: bool, sep': Key, page': nat)
    requires Matches(v, t, after) && t.Node? && Bounded(t) && Owned(t, n) && c == ChildIndex(t.seps, e.key)
    requires Grew(v, v', t.kids[c], Head(t.kids[c + 1..], after), e, n, m, true, sep, page)
    requires n <= m < |v'| <= |v''| && t.no < |v| && v'[t.no] == v[t.no]
    requires c <= |v[t.no].slots|
    requires didSplit <==> |v[t.no].slots| == INNER_MAX
    requires !didSplit ==> m' == m
    requires !didSplit ==>
               v''[t.no] == View(InnerPage, v[t.no].link, Splice(v[t.no].slots, c, Entry(sep, page, false)))
    requires didSplit ==> page' == m' == m + 1 && page' < |v''|
    requires didSplit ==>
               InnerHalves(v'', t.no, page', sep', v[t.no].link, Splice(v[t.no].slots, c, Entry(sep, page, false)))
    requires forall p | 0 <= p <= m && p != t.no :: v''[p] == v'[p]
    ensures Grew(v, v'', t, after, e, n, m', didSplit, sep', page')
  {
    hide Rank, Splice, Matches;
    var below := InsertBelow(t.kids[c], e, n + 1).0;
    InsertKeepsFirstLeaf(t.kids[c], e, n + 1);
    forall p ensures TimesGrown(below, p) == Times(t.kids[c], p) + Within(n + 1, m + 1, p) {
      InsertBelowTimes(t.kids[c], e, n + 1, p);
    }
    SplitChild(v, v', v'', t, after, c, below.left, sep, below.right, n, m);
    var kids, seps := t.kids[..c] + [below.left, below.right] + t.kids[c + 1..], Splice(t.seps, c, sep);
    NodePage(v, t, after);
    assert kids[0].no == t.kids[0].no;
    UndisturbedUp(v, v', t, c, n);
    UndisturbedOwn(v, v', v'', t, n, m);
    if didSplit {
      AttachedHalves(v'', t.no, page', kids, seps, after, v[t.no].link,
                     Splice(v[t.no].slots, c, Entry(sep, page, false)));
    } else {
      AttachedWhole(v'', t.no, kids, seps, after);
    }
  }

  lemma {:induction false} NodePage(v: seq<View>, t: Tree, after: nat)
    requires Matches(v, t, after) && t.Node?
    ensures 0 < t.no < |v| && t.kids != [] && v[t.no].kind == InnerPage && v[t.no].link == t.kids[0].no
    ensures SlotsMatch(v[t.no].slots, t.kids, t.seps)
  {
  }

  lemma UndisturbedOwn(v: seq<View>, v': seq<View>, v'': seq<View>, t: Tree, n: nat, m: nat)
    requires Undisturbed(v, v', t, n) && n <= m < |v'| <= |v''|
    requires forall p | 0 <= p <= m && p != t.no :: v''[p] == v'[p]
    ensures Undisturbed(v, v'', t, n)
  {
    assert Times(t, t.no) > 0;
  }

  /** How a full leaf is cut: 91 slots stay, 90 move, and the first moved key is promoted. */
  ghost predicate LeafHalves(v: seq<View>, left: nat, right: nat, sep: Key, link: nat, all: seq<Entry>)
    requires left < |v| && right < |v|
  {
    && |all| == LEAF_MAX + 1
    && sep == all[LEAF_MIN + 1].key
    && v[left] == View(LeafPage, right, all[..LEAF_MIN + 1])
    && v[right] == View(LeafPage, link, all[LEAF_MIN + 1..])
  }

  /** How a full internal page is cut: 95 slots on each side of the promoted one. */
  ghost predicate InnerHalves(v: seq<View>, left: nat, right: nat, sep: Key, link: nat, all: seq<Entry>)
    requires left < |v| && right < |v|
  {
    && |all| == INNER_MAX + 1
    && sep == all[INNER_MIN].key
    && v[left] == View(InnerPage, link, all[..INNER_MIN])
    && v[right] == View(InnerPage, all[INNER_MIN].offset, all[INNER_MIN + 1..])
  }

  lemma {:induction false} OnePage(v: seq<View>, no: nat)
    requires no < |v|
    ensures ChainFlat(v, [no]) == v[no].slots
  {
  }

  lemma DeleteStep(x: Index, key: Key, offset: nat)
    requires Bounded(x.tree)
    ensures Step(x, DeleteOp(key, offset)).0 == x.(tree := Delete(x.tree, key, offset))
  {
  }

  lemma {:induction false} FirstPairNone(s: seq<Entry>, key: Key, offset: nat)
    requires forall i | 0 <= i < |s| :: !Hit(s[i], key)
    ensures FirstPair(s, key, offset) == |s|
  {
    hide Rank, Hit;
    if s == [] {
    } else {
      FirstPairNone(s[1..], key, offset);
    }
  }

  /** A delete that finds nothing changes nothing. */
  lemma {:induction false} NothingToKill(t: Tree, i: nat)
    requires i >= |Flat(t)|
    ensures KillAt(t, i) == t
  {
    if t.Node? {
      KillNone(t.kids, i);
    }
  }

  lemma {:induction false} DeletePlace(v: seq<View>, x: Index, key: Key, offset: nat, before: seq<nat>, no: nat,
                                       later: seq<nat>, j: nat)
    requires Wf(x) && Matches(v, x.tree, 0)
    requires no < |v| && j < |v[no].slots| && NosFrom(x.tree, key) == before + [no] + later
    requires FirstPair(Flat(x.tree)[LeafStart(x.tree, key)..], key, offset) == |ChainFlat(v, before)| + j
    ensures Matches(Marked(v, no, j), Delete(x.tree, key, offset), 0)
  {
    hide Rank, Sorted, Shaped, LastLive, Times, Matches, KillAt, FirstPair, ChainFlat, NosFrom, NosBefore, LeafNos;
    var t := x.tree;
    LeafNosSplit(t, key);
    FlatBeforeLeaf(v, t, 0, key);
    ChainFlatConcat(v, NosBefore(t, key), before);
    Assoc(NosBefore(t, key), before + [no], later);
    Assoc(NosBefore(t, key), before, [no]);
    assert forall p :: Times(t, p) == Within(1, x.next, p);
    MarkedMatches(v, t, 0, NosBefore(t, key) + before, no, later, j);
  }

  lemma SortedSuffix(s: seq<Entry>, a: nat)
    requires Sorted(s) && a <= |s|
    ensures Sorted(s[a..])
  {
    hide Rank, Sorted;
    assert s == s[..a] + s[a..];
    SortedPair(s[..a], s[a..]);
  }
}
