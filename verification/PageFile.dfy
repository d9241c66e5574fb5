/**
  * What the pages of an index file say: the tree they spell out, and the leaf chain.
  *
  * A page is viewed as its type, its link and its used slots.  `Matches` relates a run
  * of pages to a tree, including the link of every leaf; the lemmas here move that
  * relation through the page edits of module BTreeFile.
  */
module PageFile {
  import opened Sequences
  import opened KeyOrder
  import opened Tree
  import opened TreeInsert
  import opened TreeSearch

  datatype Kind = UnusedPage | LeafPage | InnerPage

  /** `link` is the next leaf, or the leftmost child; a slot of an internal page holds its child in `offset`. */
  datatype View = View(kind: Kind, link: nat, slots: seq<Entry>)

  function FirstLeaf(t: Tree): nat {
    if t.Leaf? then t.no else if t.kids == [] then 0 else FirstLeaf(t.kids[0])
  }

  /** The page after the subtrees `ts` in the leaf chain, `after` being the one after that. */
  function Head(ts: seq<Tree>, after: nat): nat {
    if ts == [] then after else FirstLeaf(ts[0])
  }

  predicate SlotsMatch(slots: seq<Entry>, kids: seq<Tree>, seps: seq<Key>) {
    && |slots| == |seps|
    && |kids| == |seps| + 1
    && forall i | 0 <= i < |slots| :: slots[i] == Entry(seps[i], kids[i + 1].no, false)
  }

  /** The pages spell out `t`, its last leaf being linked to page `after`. */
  predicate Matches(v: seq<View>, t: Tree, after: nat)
    decreases t, 1
  {
    && 0 < t.no < |v|
    && match t
       case Leaf(no, es) => v[no] == View(LeafPage, after, es)
       case Node(no, kids, seps) =>
         && |kids| > 0
         && v[no].kind == InnerPage
         && v[no].link == kids[0].no
         && SlotsMatch(v[no].slots, kids, seps)
         && MatchAll(v, kids, after)
  }

  predicate MatchAll(v: seq<View>, ts: seq<Tree>, after: nat)
    decreases ts, 0
  {
    ts != [] ==> Matches(v, ts[0], Head(ts[1..], after)) && MatchAll(v, ts[1..], after)
  }

  // ---------------------------------------------------------------- lists of subtrees

  lemma {:induction false} MatchAllConcat(v: seq<View>, a: seq<Tree>, b: seq<Tree>, after: nat)
    ensures MatchAll(v, a + b, after) <==> MatchAll(v, a, Head(b, after)) && MatchAll(v, b, after)
  {
    if a == [] {
      assert a + b == b;
    } else {
      assert (a + b)[1..] == a[1..] + b;
      MatchAllConcat(v, a[1..], b, after);
    }
  }

  lemma {:induction false} MatchAllSplit(v: seq<View>, ts: seq<Tree>, c: nat, after: nat)
    requires c < |ts|
    ensures MatchAll(v, ts, after)
            <==> MatchAll(v, ts[..c], FirstLeaf(ts[c])) && Matches(v, ts[c], Head(ts[c + 1..], after))
                 && MatchAll(v, ts[c + 1..], after)
  {
    assert ts == ts[..c] + ts[c..];
    MatchAllConcat(v, ts[..c], ts[c..], after);
    assert ts[c..][1..] == ts[c + 1..];
  }

  lemma {:induction false} MatchAllPair(v: seq<View>, l: Tree, r: Tree, after: nat)
    ensures MatchAll(v, [l], after) <==> Matches(v, l, after)
    ensures MatchAll(v, [l, r], after) <==> Matches(v, l, FirstLeaf(r)) && Matches(v, r, after)
  {
    assert [l, r][1..] == [r] && [r][1..] == [] && [l][1..] == [];
    assert MatchAll(v, [r], after) <==> Matches(v, r, after);
  }

  // ---------------------------------------------------------------- frames

  /** Editing pages that do not belong to a subtree leaves it alone. */
  lemma {:induction false} MatchesFrame(v: seq<View>, v': seq<View>, t: Tree, after: nat)
    requires Matches(v, t, after) && |v| <= |v'|
    requires forall p | 0 <= p < |v| && Times(t, p) > 0 :: v'[p] == v[p]
    ensures Matches(v', t, after)
    decreases t, 1
  {
    assert Times(t, t.no) > 0;
    if t.Node? {
      MatchAllFrame(v, v', t.kids, after);
    }
  }

  lemma {:induction false} MatchAllFrame(v: seq<View>, v': seq<View>, ts: seq<Tree>, after: nat)
    requires MatchAll(v, ts, after) && |v| <= |v'|
    requires forall p | 0 <= p < |v| && TimesAll(ts, p) > 0 :: v'[p] == v[p]
    ensures MatchAll(v', ts, after)
    decreases ts, 0
  {
    if ts == [] {
    } else {
      MatchesFrame(v, v', ts[0], Head(ts[1..], after));
      MatchAllFrame(v, v', ts[1..], after);
    }
  }

  /** Every page of a matching subtree is a page of the file. */
  lemma {:induction false} MatchesInFile(v: seq<View>, t: Tree, after: nat, p: nat)
    requires Matches(v, t, after) && Times(t, p) > 0
    ensures 0 < p < |v|
    decreases t, 1
  {
    if t.Node? && p != t.no {
      MatchAllInFile(v, t.kids, after, p);
    }
  }

  lemma {:induction false} MatchAllInFile(v: seq<View>, ts: seq<Tree>, after: nat, p: nat)
    requires MatchAll(v, ts, after) && TimesAll(ts, p) > 0
    ensures 0 < p < |v|
    decreases ts, 0
  {
    if Times(ts[0], p) > 0 {
      MatchesInFile(v, ts[0], Head(ts[1..], after), p);
    } else {
      MatchAllInFile(v, ts[1..], after, p);
    }
  }

  // ---------------------------------------------------------------- the leaf chain

  function LeafNos(t: Tree): seq<nat> {
    match t
    case Leaf(no, _) => [no]
    case Node(_, kids, _) => LeafNosAll(kids)
  }

  function LeafNosAll(ts: seq<Tree>): seq<nat> {
    if ts == [] then [] else LeafNos(ts[0]) + LeafNosAll(ts[1..])
  }

  /** Following the leaf links from page `p` visits exactly `nos`, then stops. */
  predicate Chain(v: seq<View>, p: nat, nos: seq<nat>)
    decreases nos
  {
    if nos == [] then p == 0
    else p == nos[0] && 0 < p < |v| && v[p].kind == LeafPage && Chain(v, v[p].link, nos[1..])
  }

  /** The entries met along the way. */
  function ChainFlat(v: seq<View>, nos: seq<nat>): seq<Entry> {
    if nos == [] then []
    else (if nos[0] < |v| then v[nos[0]].slots else []) + ChainFlat(v, nos[1..])
  }

  lemma {:induction false} ChainFlatConcat(v: seq<View>, a: seq<nat>, b: seq<nat>)
    ensures ChainFlat(v, a + b) == ChainFlat(v, a) + ChainFlat(v, b)
  {
    if a == [] {
      assert a + b == b;
    } else {
      assert (a + b)[1..] == a[1..] + b;
      ChainFlatConcat(v, a[1..], b);
    }
  }

  /** The slots of a subtree's leaves are its contents. */
  lemma {:induction false} LeavesFlat(v: seq<View>, t: Tree, after: nat)
    requires Matches(v, t, after)
    ensures ChainFlat(v, LeafNos(t)) == Flat(t)
    decreases t, 1
  {
    match t
    case Leaf(no, es) =>
    case Node(_, kids, _) => LeavesFlatAll(v, kids, after);
  }

  lemma {:induction false} LeavesFlatAll(v: seq<View>, ts: seq<Tree>, after: nat)
    requires MatchAll(v, ts, after)
    ensures ChainFlat(v, LeafNosAll(ts)) == FlatAll(ts)
    decreases ts, 0
  {
    if ts == [] {
    } else {
      LeavesFlatAll(v, ts[1..], after);
      LeavesFlat(v, ts[0], Head(ts[1..], after));
      ChainFlatConcat(v, LeafNos(ts[0]), LeafNosAll(ts[1..]));
    }
  }

  /** The chain through a subtree visits its leaves in order. */
  lemma {:induction false} TreeChain(v: seq<View>, t: Tree, after: nat, rest: seq<nat>)
    requires Matches(v, t, after) && Chain(v, after, rest)
    ensures Chain(v, FirstLeaf(t), LeafNos(t) + rest)
    decreases t, 1
  {
    match t
    case Leaf(no, es) =>
      assert ([no] + rest)[1..] == rest;
    case Node(_, kids, _) =>
      TreesChain(v, kids, after, rest);
  }

  lemma {:induction false} TreesChain(v: seq<View>, ts: seq<Tree>, after: nat, rest: seq<nat>)
    requires MatchAll(v, ts, after) && Chain(v, after, rest)
    ensures Chain(v, Head(ts, after), LeafNosAll(ts) + rest)
    decreases ts, 0
  {
    if ts == [] {
      assert LeafNosAll(ts) + rest == rest;
    } else {
      TreesChain(v, ts[1..], after, rest);
      TreeChain(v, ts[0], Head(ts[1..], after), LeafNosAll(ts[1..]) + rest);
      assert LeafNos(ts[0]) + (LeafNosAll(ts[1..]) + rest) == LeafNosAll(ts) + rest;
    }
  }

  /** What lies from the descended leaf onward, as a chain. */
  function NosFrom(t: Tree, key: Key): seq<nat>
    requires Bounded(t)
    decreases t
  {
    match t
    case Leaf(no, _) => [no]
    case Node(_, kids, seps) =>
      var c := ChildIndex(seps, key);
      NosFrom(kids[c], key) + LeafNosAll(kids[c + 1..])
  }

  lemma SuffixMiddle<T>(a: seq<T>, m: seq<T>, b: seq<T>, at: nat)
    requires at <= |m|
    ensures (a + m + b)[|a| + at..] == m[at..] + b
  {
  }

  lemma {:induction false} ChainFromLeaf(v: seq<View>, t: Tree, after: nat, rest: seq<nat>, key: Key)
    requires Matches(v, t, after) && Bounded(t) && Chain(v, after, rest)
    ensures Chain(v, DescendTo(t, key).no, NosFrom(t, key) + rest)
    decreases t
  {
    hide Rank;
    match t
    case Leaf(no, es) =>
      assert ([no] + rest)[1..] == rest;
    case Node(_, kids, seps) =>
      var c := ChildIndex(seps, key);
      MatchAllSplit(v, kids, c, after);
      TreesChain(v, kids[c + 1..], after, rest);
      var rest' := LeafNosAll(kids[c + 1..]) + rest;
      ChainFromLeaf(v, kids[c], Head(kids[c + 1..], after), rest', key);
      Assoc(NosFrom(kids[c], key), LeafNosAll(kids[c + 1..]), rest);
  }

  lemma {:induction false} FlatFromLeaf(v: seq<View>, t: Tree, after: nat, key: Key)
    requires Matches(v, t, after) && Bounded(t)
    ensures ChainFlat(v, NosFrom(t, key)) == Flat(t)[LeafStart(t, key)..]
    decreases t
  {
    hide Rank, ChainFlat, MatchAll, LeafNosAll, FlatAll;
    match t
    case Leaf(_, _) => OneLeafFlat(v, t, after, key);
    case Node(_, kids, seps) =>
      var c := ChildIndex(seps, key);
      MatchAllSplit(v, kids, c, after);
      FlatFromLeaf(v, kids[c], Head(kids[c + 1..], after), key);
      LeavesFlatAll(v, kids[c + 1..], after);
      ChainFlatConcat(v, NosFrom(kids[c], key), LeafNosAll(kids[c + 1..]));
      FlatAllSplit(kids, c);
      SuffixMiddle(FlatAll(kids[..c]), Flat(kids[c]), FlatAll(kids[c + 1..]), LeafStart(kids[c], key));
  }

  lemma OneLeafFlat(v: seq<View>, t: Tree, after: nat, key: Key)
    requires t.Leaf? && Matches(v, t, after) && Bounded(t)
    ensures ChainFlat(v, NosFrom(t, key)) == Flat(t)[LeafStart(t, key)..]
  {
  }

  /** The leaves before the descended one. */
  function NosBefore(t: Tree, key: Key): seq<nat>
    requires Bounded(t)
    decreases t
  {
    match t
    case Leaf(_, _) => []
    case Node(_, kids, seps) =>
      var c := ChildIndex(seps, key);
      LeafNosAll(kids[..c]) + NosBefore(kids[c], key)
  }

  lemma {:induction false} LeafNosAllConcat(a: seq<Tree>, b: seq<Tree>)
    ensures LeafNosAll(a + b) == LeafNosAll(a) + LeafNosAll(b)
  {
    if a == [] {
      assert a + b == b;
    } else {
      assert (a + b)[1..] == a[1..] + b;
      LeafNosAllConcat(a[1..], b);
    }
  }

  lemma {:induction false} LeafNosSplit(t: Tree, key: Key)
    requires Bounded(t)
    ensures LeafNos(t) == NosBefore(t, key) + NosFrom(t, key)
    decreases t
  {
    hide Rank;
    match t
    case Leaf(_, _) =>
    case Node(_, kids, seps) =>
      var c := ChildIndex(seps, key);
      LeafNosSplit(kids[c], key);
      assert kids == kids[..c] + kids[c..];
      LeafNosAllConcat(kids[..c], kids[c..]);
      assert LeafNosAll(kids[c..]) == LeafNos(kids[c]) + LeafNosAll(kids[c + 1..]);
      Regroup(LeafNosAll(kids[..c]), NosBefore(kids[c], key), NosFrom(kids[c], key), LeafNosAll(kids[c + 1..]));
  }

  lemma Regroup<T>(a: seq<T>, b: seq<T>, c: seq<T>, d: seq<T>)
    ensures a + ((b + c) + d) == (a + b) + (c + d)
  {
  }

  lemma {:induction false} FlatBeforeLeaf(v: seq<View>, t: Tree, after: nat, key: Key)
    requires Matches(v, t, after) && Bounded(t)
    ensures |ChainFlat(v, NosBefore(t, key))| == LeafStart(t, key)
    decreases t
  {
    hide Rank;
    match t
    case Leaf(no, es) =>
    case Node(_, kids, seps) =>
      var c := ChildIndex(seps, key);
      MatchAllSplit(v, kids, c, after);
      FlatBeforeLeaf(v, kids[c], Head(kids[c + 1..], after), key);
      LeavesFlatAll(v, kids[..c], FirstLeaf(kids[c]));
      ChainFlatConcat(v, LeafNosAll(kids[..c]), NosBefore(kids[c], key));
  }

  // ---------------------------------------------------------------- delete, page by page

  lemma {:induction false} LeafNosTimes(t: Tree, no: nat)
    requires no in LeafNos(t)
    ensures Times(t, no) > 0
    decreases t, 1
  {
    if t.Node? {
      LeafNosAllTimes(t.kids, no);
    }
  }

  lemma {:induction false} LeafNosAllTimes(ts: seq<Tree>, no: nat)
    requires no in LeafNosAll(ts)
    ensures TimesAll(ts, no) > 0
    decreases ts, 0
  {
    if no in LeafNos(ts[0]) {
      LeafNosTimes(ts[0], no);
    } else {
      LeafNosAllTimes(ts[1..], no);
    }
  }

  lemma {:induction false} KillAtNumbers(t: Tree, i: nat)
    ensures KillAt(t, i).no == t.no && FirstLeaf(KillAt(t, i)) == FirstLeaf(t)
  {
    if t.Node? && t.kids != [] {
      KillAtNumbers(t.kids[0], i);
    }
  }

  lemma {:induction false} KillAllNumbers(ts: seq<Tree>, i: nat)
    ensures |KillAll(ts, i)| == |ts|
    ensures forall j | 0 <= j < |ts| :: KillAll(ts, i)[j].no == ts[j].no
    ensures ts != [] ==> FirstLeaf(KillAll(ts, i)[0]) == FirstLeaf(ts[0])
  {
    if ts == [] {
    } else {
      KillAtNumbers(ts[0], i);
      if i >= |Flat(ts[0])| {
        var r := KillAll(ts[1..], i - |Flat(ts[0])|);
        KillAllNumbers(ts[1..], i - |Flat(ts[0])|);
        assert forall j | 0 < j < |ts| :: KillAll(ts, i)[j] == r[j - 1] && ts[j] == ts[1..][j - 1];
      }
    }
  }

  /** The file after marking slot `j` of page `no`. */
  function Marked(v: seq<View>, no: nat, j: nat): seq<View>
    requires no < |v|
  {
    v[no := v[no].(slots := Kill(v[no].slots, j))]
  }

  /** Marking a slot of the leaf reached after `pre` marks that entry of the tree. */
  lemma {:induction false} MarkedMatches(v: seq<View>, t: Tree, after: nat, pre: seq<nat>, no: nat,
                                         post: seq<nat>, j: nat)
    requires Matches(v, t, after) && LeafNos(t) == pre + [no] + post
    requires forall p :: Times(t, p) <= 1
    requires no < |v| && j < |v[no].slots|
    ensures Matches(Marked(v, no, j), KillAt(t, |ChainFlat(v, pre)| + j), after)
    decreases t, 2
  {
    match t
    case Leaf(_, es) =>
      assert |LeafNos(t)| == 1 && pre == [] && (pre + [no] + post)[0] == no;
    case Node(n, kids, seps) =>
      assert forall p :: TimesAll(kids, p) <= Times(t, p);
      assert (pre + [no] + post)[|pre|] == no;
      LeafNosAllTimes(kids, no);
      assert Times(t, no) == One(n, no) + TimesAll(kids, no);
      MarkedMatchesAll(v, kids, after, pre, no, post, j);
      KillAllNumbers(kids, |ChainFlat(v, pre)| + j);
  }

  lemma {:induction false} MarkedMatchesAll(v: seq<View>, ts: seq<Tree>, after: nat, pre: seq<nat>, no: nat,
                                            post: seq<nat>, j: nat)
    requires MatchAll(v, ts, after) && LeafNosAll(ts) == pre + [no] + post
    requires forall p :: TimesAll(ts, p) <= 1
    requires no < |v| && j < |v[no].slots|
    ensures MatchAll(Marked(v, no, j), KillAll(ts, |ChainFlat(v, pre)| + j), after)
    decreases ts, 1
  {
    hide Matches, ChainFlat, LeafNos, Flat, KillAt, Times;
    assert |LeafNosAll(ts)| > 0 && ts != [];
    forall p ensures Times(ts[0], p) <= 1 && TimesAll(ts[1..], p) <= 1 {
      assert TimesAll(ts, p) <= 1;
    }
    if |pre| < |LeafNos(ts[0])| {
      MarkedInFirst(v, ts, after, pre, no, post, j);
    } else {
      var pre' := pre[|LeafNos(ts[0])|..];
      CutSecond(LeafNos(ts[0]), LeafNosAll(ts[1..]), pre, no, post);
      MarkedMatchesAll(v, ts[1..], after, pre', no, post, j);
      MarkedAfterFirst(v, ts, after, pre', no, post, j);
    }
  }

  lemma CutFirst<T>(a: seq<T>, b: seq<T>, pre: seq<T>, x: T, post: seq<T>)
    requires a + b == pre + [x] + post && |pre| < |a|
    ensures a == pre + [x] + a[|pre| + 1..]
  {
    assert a == (pre + [x] + post)[..|a|];
  }

  lemma CutSecond<T>(a: seq<T>, b: seq<T>, pre: seq<T>, x: T, post: seq<T>)
    requires a + b == pre + [x] + post && |pre| >= |a|
    ensures pre == a + pre[|a|..]
    ensures b == pre[|a|..] + [x] + post
  {
    assert a == (pre + [x] + post)[..|a|];
    assert b == (pre + [x] + post)[|a|..];
  }

  lemma MarkedInFirst(v: seq<View>, ts: seq<Tree>, after: nat, pre: seq<nat>, no: nat, post: seq<nat>, j: nat)
    requires MatchAll(v, ts, after) && LeafNosAll(ts) == pre + [no] + post
    requires forall p :: TimesAll(ts, p) <= 1
    requires no < |v| && j < |v[no].slots|
    requires ts != [] && |pre| < |LeafNos(ts[0])|
    requires forall p :: Times(ts[0], p) <= 1
    ensures MatchAll(Marked(v, no, j), KillAll(ts, |ChainFlat(v, pre)| + j), after)
    decreases ts, 0
  {
    var i, v', post0 := |ChainFlat(v, pre)| + j, Marked(v, no, j), LeafNos(ts[0])[|pre| + 1..];
    CutFirst(LeafNos(ts[0]), LeafNosAll(ts[1..]), pre, no, post);
    MarkedMatches(v, ts[0], Head(ts[1..], after), pre, no, post0, j);
    LeavesFlat(v, ts[0], Head(ts[1..], after));
    ChainFlatConcat(v, pre + [no], post0);
    ChainFlatConcat(v, pre, [no]);
    assert ChainFlat(v, [no]) == v[no].slots;
    assert i < |Flat(ts[0])|;
    assert (pre + [no] + post0)[|pre|] == no;
    LeafNosTimes(ts[0], no);
    assert TimesAll(ts, no) <= 1;
    MatchAllFrame(v, v', ts[1..], after);
    assert KillAll(ts, i)[1..] == ts[1..];
  }

  lemma MarkedAfterFirst(v: seq<View>, ts: seq<Tree>, after: nat, pre: seq<nat>, no: nat, post: seq<nat>, j: nat)
    requires MatchAll(v, ts, after) && ts != []
    requires forall p :: TimesAll(ts, p) <= 1
    requires no < |v| && j < |v[no].slots|
    requires LeafNosAll(ts[1..]) == pre + [no] + post
    requires MatchAll(Marked(v, no, j), KillAll(ts[1..], |ChainFlat(v, pre)| + j), after)
    ensures MatchAll(Marked(v, no, j), KillAll(ts, |ChainFlat(v, LeafNos(ts[0]) + pre)| + j), after)
  {
    hide Matches, ChainFlat, LeafNos, Times, Flat, KillAt;
    var i, v' := |ChainFlat(v, pre)| + j, Marked(v, no, j);
    ChainFlatConcat(v, LeafNos(ts[0]), pre);
    LeavesFlat(v, ts[0], Head(ts[1..], after));
    assert (pre + [no] + post)[|pre|] == no;
    LeafNosAllTimes(ts[1..], no);
    assert TimesAll(ts, no) <= 1;
    MatchesFrame(v, v', ts[0], Head(ts[1..], after));
    KillAllNumbers(ts[1..], i);
    KillAfterFirst(ts, i);
  }

  lemma KillAfterFirst(ts: seq<Tree>, i: nat)
    requires ts != []
    ensures KillAll(ts, |Flat(ts[0])| + i) == [ts[0]] + KillAll(ts[1..], i)
  {
    hide Flat, KillAt;
  }

  // ---------------------------------------------------------------- insertion, page by page

  /** The pages spell out the result of an insertion below page `no`. */
  predicate MatchesGrown(v: seq<View>, g: Grown, no: nat, after: nat) {
    match g
    case Kept(t) => t.no == no && Matches(v, t, after)
    case Split(l, _, r) => l.no == no && Matches(v, l, FirstLeaf(r)) && Matches(v, r, after)
  }

  function GrownFirstLeaf(g: Grown): nat {
    match g
    case Kept(t) => FirstLeaf(t)
    case Split(l, _, _) => FirstLeaf(l)
  }

  /** The leftmost page keeps its number, so links from the left stay right. */
  lemma {:induction false} InsertKeepsFirstLeaf(t: Tree, e: Entry, next: nat)
    requires Bounded(t)
    ensures GrownFirstLeaf(InsertBelow(t, e, next).0) == FirstLeaf(t)
    decreases t
  {
    hide Rank, Inserted;
    match t
    case Leaf(_, _) =>
    case Node(no, kids, seps) =>
      var c := ChildIndex(seps, e.key);
      InsertKeepsFirstLeaf(kids[c], e, next);
  }

  /** Both halves of the child list after `c` has grown match, if the grown child does. */
  lemma RegrownKids(v: seq<View>, v': seq<View>, kids: seq<Tree>, c: nat, mid: seq<Tree>, after: nat)
    requires c < |kids| && |v| <= |v'| && mid != []
    requires MatchAll(v, kids, after)
    requires MatchAll(v', mid, Head(kids[c + 1..], after))
    requires FirstLeaf(mid[0]) == FirstLeaf(kids[c])
    requires forall p | 0 <= p < |v| && TimesAll(kids, p) > Times(kids[c], p) :: v'[p] == v[p]
    ensures MatchAll(v', kids[..c] + mid + kids[c + 1..], after)
  {
    MatchAllSplit(v, kids, c, after);
    forall p | 0 <= p < |v| && (TimesAll(kids[..c], p) > 0 || TimesAll(kids[c + 1..], p) > 0)
      ensures v'[p] == v[p]
    {
      TimesAllSplit(kids, c, p);
    }
    MatchAllFrame(v, v', kids[..c], FirstLeaf(kids[c]));
    MatchAllFrame(v, v', kids[c + 1..], after);
    MatchAllConcat(v', kids[..c], mid, Head(kids[c + 1..], after));
    MatchAllConcat(v', kids[..c] + mid, kids[c + 1..], after);
  }

  lemma SlotsSpliced(slots: seq<Entry>, kids: seq<Tree>, seps: seq<Key>, c: nat, l: Tree, sep: Key, r: Tree)
    requires SlotsMatch(slots, kids, seps) && c <= |seps| && l.no == kids[c].no
    ensures SlotsMatch(Splice(slots, c, Entry(sep, r.no, false)), kids[..c] + [l, r] + kids[c + 1..],
                       Splice(seps, c, sep))
  {
    var slots', kids', seps' :=
      Splice(slots, c, Entry(sep, r.no, false)), kids[..c] + [l, r] + kids[c + 1..], Splice(seps, c, sep);
    forall i | 0 <= i < |slots'| ensures slots'[i] == Entry(seps'[i], kids'[i + 1].no, false) {
      if i < c {
        assert slots'[i] == slots[i] && seps'[i] == seps[i];
        assert kids'[i + 1].no == kids[i + 1].no;
      } else if i == c {
        assert kids'[i + 1] == r;
      } else {
        assert slots'[i] == slots[i - 1] && seps'[i] == seps[i - 1] && kids'[i + 1] == kids[i];
      }
    }
  }

  lemma SlotsKept(slots: seq<Entry>, kids: seq<Tree>, seps: seq<Key>, c: nat, k: Tree)
    requires SlotsMatch(slots, kids, seps) && c <= |seps| && k.no == kids[c].no
    ensures SlotsMatch(slots, kids[..c] + [k] + kids[c + 1..], seps)
  {
    var kids' := kids[..c] + [k] + kids[c + 1..];
    assert kids' == kids[c := k];
    forall i | 0 <= i < |slots| ensures slots[i] == Entry(seps[i], kids'[i + 1].no, false) {
      assert kids'[i + 1].no == kids[i + 1].no;
    }
  }

  // ---------------------------------------------------------------- one level of an insertion

  /** Every page of the subtree has one place in it and a number up to `n`. */
  ghost predicate Owned(t: Tree, n: nat) {
    forall p: nat :: Times(t, p) <= if p <= n then 1 else 0
  }

  lemma OwnedKid(t: Tree, c: nat, n: nat)
    requires t.Node? && c < |t.kids| && Owned(t, n)
    ensures Owned(t.kids[c], n)
    ensures Times(t.kids[c], t.no) == 0
    ensures t.no <= n
  {
    forall p: nat ensures Times(t.kids[c], p) <= (if p <= n then 1 else 0) && Times(t.kids[c], t.no) == 0 {
      assert Times(t, p) <= if p <= n then 1 else 0;
      TimesAllSplit(t.kids, c, p);
      assert Times(t, t.no) <= if t.no <= n then 1 else 0;
      TimesAllSplit(t.kids, c, t.no);
    }
    assert Times(t, t.no) <= if t.no <= n then 1 else 0;
  }

  /** The rest of the tree, as the pages of child `c` change from `v` to `v'`. */
  ghost predicate Undisturbed(v: seq<View>, v': seq<View>, t: Tree, n: nat) {
    && |v| <= |v'|
    && forall p | 0 <= p < |v| && p <= n && Times(t, p) == 0 :: v'[p] == v[p]
  }

  lemma {:induction false} GrownKids(v: seq<View>, v': seq<View>, t: Tree, after: nat, c: nat, mid: seq<Tree>, n: nat)
    requires t.Node? && Matches(v, t, after) && Owned(t, n) && c < |t.kids| && mid != []
    requires Undisturbed(v, v', t.kids[c], n)
    requires MatchAll(v', mid, Head(t.kids[c + 1..], after)) && FirstLeaf(mid[0]) == FirstLeaf(t.kids[c])
    ensures MatchAll(v', t.kids[..c] + mid + t.kids[c + 1..], after)
    ensures v'[t.no] == v[t.no]
  {
    OwnedKid(t, c, n);
    forall p | 0 <= p < |v| && TimesAll(t.kids, p) > Times(t.kids[c], p) ensures v'[p] == v[p] {
      assert Times(t, p) <= if p <= n then 1 else 0;
    }
    RegrownKids(v, v', t.kids, c, mid, after);
  }

  lemma KeptChild(v: seq<View>, v': seq<View>, t: Tree, after: nat, c: nat, k: Tree, n: nat)
    requires t.Node? && Matches(v, t, after) && Owned(t, n) && c < |t.kids|
    requires Undisturbed(v, v', t.kids[c], n)
    requires Matches(v', k, Head(t.kids[c + 1..], after))
    requires FirstLeaf(k) == FirstLeaf(t.kids[c]) && k.no == t.kids[c].no
    ensures Matches(v', Node(t.no, t.kids[..c] + [k] + t.kids[c + 1..], t.seps), after)
  {
    MatchAllPair(v', k, k, Head(t.kids[c + 1..], after));
    GrownKids(v, v', t, after, c, [k], n);
    SlotsKept(v[t.no].slots, t.kids, t.seps, c, k);
  }

  /** The pages of the child list after child `c` has split in two. */
  lemma {:induction false} SplitKidsOwned(t: Tree, c: nat, l: Tree, r: Tree, n: nat, m: nat, p: nat)
    requires t.Node? && Owned(t, n) && c < |t.kids| && n <= m
    requires Times(l, p) + Times(r, p) == Times(t.kids[c], p) + Within(n + 1, m + 1, p)
    ensures TimesAll(t.kids[..c] + [l, r] + t.kids[c + 1..], p) > 0 ==> p != t.no && p <= m
  {
    ReplacedTimes(t.kids, c, [l, r], p);
    TimesAllPair(l, r, p);
    TimesAllSplit(t.kids, c, p);
    assert Times(t, p) <= if p <= n then 1 else 0;
    OwnedKid(t, c, n);
  }

  /** What the page edits of the parent see of the split child: children and slots both spliced. */
  lemma SplitChild(v: seq<View>, v': seq<View>, v'': seq<View>, t: Tree, after: nat, c: nat,
                   l: Tree, sep: Key, r: Tree, n: nat, m: nat)
    requires t.Node? && Matches(v, t, after) && Owned(t, n) && c < |t.kids| && n <= m < |v'|
    requires Undisturbed(v, v', t.kids[c], n)
    requires Matches(v', l, FirstLeaf(r)) && Matches(v', r, Head(t.kids[c + 1..], after))
    requires FirstLeaf(l) == FirstLeaf(t.kids[c]) && l.no == t.kids[c].no
    requires forall p :: Times(l, p) + Times(r, p) == Times(t.kids[c], p) + Within(n + 1, m + 1, p)
    requires |v'| <= |v''| && forall p | 0 <= p <= m && p != t.no :: v''[p] == v'[p]
    ensures MatchAll(v'', t.kids[..c] + [l, r] + t.kids[c + 1..], after)
    ensures v'[t.no] == v[t.no]
    ensures SlotsMatch(Splice(v[t.no].slots, c, Entry(sep, r.no, false)),
                       t.kids[..c] + [l, r] + t.kids[c + 1..], Splice(t.seps, c, sep))
  {
    var kids' := t.kids[..c] + [l, r] + t.kids[c + 1..];
    MatchAllPair(v', l, r, Head(t.kids[c + 1..], after));
    GrownKids(v, v', t, after, c, [l, r], n);
    forall p | 0 <= p < |v'| && TimesAll(kids', p) > 0 ensures v''[p] == v'[p] {
      SplitKidsOwned(t, c, l, r, n, m, p);
    }
    MatchAllFrame(v', v'', kids', after);
    SlotsSpliced(v[t.no].slots, t.kids, t.seps, c, l, sep, r);
  }

  lemma {:induction false} AttachedWhole(v: seq<View>, no: nat, kids: seq<Tree>, seps: seq<Key>, after: nat)
    requires 0 < no < |v| && MatchAll(v, kids, after) && kids != []
    requires v[no].kind == InnerPage && v[no].link == kids[0].no && SlotsMatch(v[no].slots, kids, seps)
    ensures Matches(v, Node(no, kids, seps), after)
  {
  }

  lemma {:induction false} AttachedHalves(v: seq<View>, no: nat, right: nat, kids: seq<Tree>, seps: seq<Key>,
                                          after: nat, link: nat, slots: seq<Entry>)
    requires 0 < no < |v| && 0 < right < |v| && MatchAll(v, kids, after)
    requires |seps| == INNER_MAX + 1 && SlotsMatch(slots, kids, seps) && link == kids[0].no
    requires v[no] == View(InnerPage, link, slots[..INNER_MIN])
    requires v[right] == View(InnerPage, slots[INNER_MIN].offset, slots[INNER_MIN + 1..])
    ensures MatchesGrown(v, MakeNode(no, kids, seps, right), no, after)
    ensures slots[INNER_MIN].key == seps[INNER_MIN]
  {
    var k := INNER_MIN + 1;
    assert kids == kids[..k] + kids[k..];
    MatchAllConcat(v, kids[..k], kids[k..], after);
    var g := MakeNode(no, kids, seps, right);
    assert Head(kids[k..], after) == FirstLeaf(g.right);
    assert SlotsMatch(slots[..INNER_MIN], kids[..k], seps[..INNER_MIN]);
    assert forall i | 0 <= i < |slots[k..]| :: slots[k..][i] == slots[k + i] && kids[k..][i + 1] == kids[k + i + 1];
    AttachedWhole(v, no, kids[..k], seps[..INNER_MIN], Head(kids[k..], after));
    AttachedWhole(v, right, kids[k..], seps[k..], after);
  }
}
