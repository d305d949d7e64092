/**
 Structuring of shader code (src/gpu/latte_blockify.cpp): a flat list of instructions with labels
 becomes a tree of code, loop and conditional blocks.
 */
module Blockify {
  import opened Wrappers

  // ---------------------------------------------------------------- data

  datatype Kind = LoopStart | LoopEnd | ConditionalStart | ConditionalElse | ConditionalEnd | Eliminated

  /** `first` is the position of the labelled instruction; `linkedLabel` the position of a label. */
  datatype Label = Label(kind: Kind, first: nat, linkedLabel: Option<nat>)

  /** Block lists are named by their position in the order of creation. */
  datatype Block =
    | Code(code: seq<nat>)
    | Loop(inner: nat)
    | Conditional(condition: nat, inner: nat, innerElse: nat)

  datatype BlockRef = BlockRef(list: nat, index: nat)

  type Lists = seq<seq<Block>>

  // ---------------------------------------------------------------- labels that nest

  /** A loop or conditional that has begun; `inElse` once its else label has been met. */
  datatype Open = Open(start: nat, inElse: bool)

  predicate Linked(labels: seq<Label>, j: nat, kind: Kind)
    requires j < |labels|
  {
    && labels[j].linkedLabel.Some? && labels[j].linkedLabel.value < |labels|
    && labels[labels[j].linkedLabel.value].kind == kind
    && labels[labels[j].linkedLabel.value].linkedLabel == Some(j)
  }

  predicate Tops(labels: seq<Label>, opens: seq<Open>, kind: Kind, j: nat)
    requires j < |labels|
  {
    && |opens| > 0 && opens[|opens| - 1].start < |labels|
    && labels[opens[|opens| - 1].start].kind == kind
    && labels[j].linkedLabel == Some(opens[|opens| - 1].start)
  }

  /** The open constructs after label `j`, when it may follow `opens`. */
  function NextOpen(labels: seq<Label>, opens: seq<Open>, j: nat): Option<seq<Open>>
    requires j < |labels|
  {
    var top := |opens| - 1;
    match labels[j].kind
    case LoopStart => if Linked(labels, j, LoopEnd) then Some(opens + [Open(j, false)]) else None
    case ConditionalStart => if Linked(labels, j, ConditionalEnd) then Some(opens + [Open(j, false)]) else None
    case LoopEnd =>
      if Tops(labels, opens, LoopStart, j) && labels[opens[top].start].linkedLabel == Some(j) then Some(opens[..top]) else None
    case ConditionalElse =>
      if Tops(labels, opens, ConditionalStart, j) && !opens[top].inElse then Some(opens[..top] + [Open(opens[top].start, true)])
      else None
    case ConditionalEnd =>
      if Tops(labels, opens, ConditionalStart, j) && labels[opens[top].start].linkedLabel == Some(j) then Some(opens[..top]) else None
    case Eliminated => Some(opens)
  }

  /** The open constructs after the first `j` labels, innermost last; null when the labels do not nest. */
  function Opened(labels: seq<Label>, j: nat): Option<seq<Open>>
    requires j <= |labels|
  {
    if j == 0 then Some([])
    else match Opened(labels, j - 1)
      case None => None
      case Some(opens) => NextOpen(labels, opens, j - 1)
  }

  /** Labels in code order, one per instruction at most, whose linked pairs nest and are all closed. */
  ghost predicate WellNested(labels: seq<Label>, n: nat) {
    && (forall a, b :: 0 <= a < b < |labels| ==> labels[a].first < labels[b].first)
    && (forall a :: 0 <= a < |labels| ==> labels[a].first < n)
    && Opened(labels, |labels|) == Some([])
  }

  predicate OpenOk(labels: seq<Label>, o: Open, j: nat) {
    && o.start < j <= |labels|
    && (labels[o.start].kind == LoopStart ==> Linked(labels, o.start, LoopEnd) && !o.inElse)
    && (labels[o.start].kind != LoopStart ==> labels[o.start].kind == ConditionalStart && Linked(labels, o.start, ConditionalEnd))
  }

  lemma NextOpenOk(labels: seq<Label>, opens: seq<Open>, j: nat)
    requires j < |labels| && NextOpen(labels, opens, j).Some?
    requires forall o :: o in opens ==> OpenOk(labels, o, j)
    ensures forall o :: o in NextOpen(labels, opens, j).value ==> OpenOk(labels, o, j + 1)
  {
    var next := NextOpen(labels, opens, j).value;
    forall k | 0 <= k < |next|
      ensures OpenOk(labels, next[k], j + 1)
    {
      if k < |opens| {
        assert opens[k] in opens;
      }
    }
  }

  lemma {:induction false} OpenedOk(labels: seq<Label>, j: nat)
    requires j <= |labels| && Opened(labels, j).Some?
    ensures forall o :: o in Opened(labels, j).value ==> OpenOk(labels, o, j)
  {
    if j > 0 {
      OpenedOk(labels, j - 1);
      NextOpenOk(labels, Opened(labels, j - 1).value, j - 1);
    }
  }

  /** Labels that nest as a whole nest up to every point. */
  lemma {:induction false} OpenedBefore(labels: seq<Label>, j: nat, k: nat)
    requires j <= k <= |labels| && Opened(labels, k).Some?
    ensures Opened(labels, j).Some?
    decreases k - j
  {
    if j < k {
      OpenedBefore(labels, j + 1, k);
    }
  }

  // ---------------------------------------------------------------- structured text

  datatype Token = Ins(at: nat) | LoopOpen | LoopClose | If(at: nat) | Else | EndIf

  /** What label `j` and its instruction become. */
  function LabelTokens(labels: seq<Label>, j: nat): seq<Token>
    requires j < |labels|
  {
    match labels[j].kind
    case LoopStart => [LoopOpen]
    case LoopEnd => [LoopClose]
    case ConditionalStart => [If(labels[j].first)]
    case ConditionalElse => [Else]
    case ConditionalEnd => (if ElseSeen(labels, j) then [EndIf] else [Else, EndIf]) + [Ins(labels[j].first)]
    case Eliminated => []
  }

  predicate ElseSeen(labels: seq<Label>, j: nat)
    requires j < |labels|
  {
    Opened(labels, j).Some? && |Opened(labels, j).value| > 0
    && Opened(labels, j).value[|Opened(labels, j).value| - 1].inElse
  }

  predicate Labels(labels: seq<Label>, j: nat, i: nat) {
    j < |labels| && labels[j].first == i
  }

  ghost function TokensAt(labels: seq<Label>, i: nat): seq<Token> {
    if exists j: nat :: Labels(labels, j, i) then
      var j: nat :| Labels(labels, j, i);
      LabelTokens(labels, j)
    else [Ins(i)]
  }

  /** The structured text that `n` instructions with these labels stand for. */
  ghost function Structured(labels: seq<Label>, n: nat): seq<Token> {
    if n == 0 then [] else Structured(labels, n - 1) + TokensAt(labels, n - 1)
  }

  // ---------------------------------------------------------------- the tree and its text

  predicate BlockOk(parent: seq<(nat, nat)>, block: Block, l: nat, index: nat) {
    match block
    case Code(_) => true
    case Loop(c) => l < c < |parent| && parent[c] == (l, index)
    case Conditional(_, c, e) => l < c < e < |parent| && parent[c] == parent[e] == (l, index)
  }

  /** Every list but the first belongs to the one block that `parent` names. */
  ghost predicate Tree(lists: Lists, parent: seq<(nat, nat)>) {
    && 0 < |lists| == |parent|
    && forall l, index :: 0 <= l < |lists| && 0 <= index < |lists[l]| ==> BlockOk(parent, lists[l][index], l, index)
  }

  predicate Later(lists: Lists, block: Block, l: nat) {
    match block
    case Code(_) => true
    case Loop(c) => l < c < |lists|
    case Conditional(_, c, e) => l < c < |lists| && l < e < |lists|
  }

  ghost predicate Grows(lists: Lists) {
    forall l, index :: 0 <= l < |lists| && 0 <= index < |lists[l]| ==> Later(lists, lists[l][index], l)
  }

  lemma TreeGrows(lists: Lists, parent: seq<(nat, nat)>)
    requires Tree(lists, parent)
    ensures Grows(lists)
  {
    forall l, index | 0 <= l < |lists| && 0 <= index < |lists[l]|
      ensures Later(lists, lists[l][index], l)
    {
      assert BlockOk(parent, lists[l][index], l, index);
    }
  }

  function CodeTokens(code: seq<nat>): (t: seq<Token>)
    ensures |t| == |code|
  {
    seq(|code|, i requires 0 <= i < |code| => Ins(code[i]))
  }

  /** The text of a list's first `n` blocks. */
  ghost function Text(lists: Lists, l: nat, n: nat): seq<Token>
    requires Grows(lists) && l < |lists| && n <= |lists[l]|
    decreases |lists| - l, n
  {
    if n == 0 then [] else Text(lists, l, n - 1) + BlockText(lists, l, n - 1)
  }

  ghost function BlockText(lists: Lists, l: nat, index: nat): seq<Token>
    requires Grows(lists) && l < |lists| && index < |lists[l]|
    decreases |lists| - l, index
  {
    assert Later(lists, lists[l][index], l);
    match lists[l][index]
    case Code(code) => CodeTokens(code)
    case Loop(c) => [LoopOpen] + Text(lists, c, |lists[c]|) + [LoopClose]
    case Conditional(condition, c, e) =>
      [If(condition)] + Text(lists, c, |lists[c]|) + [Else] + Text(lists, e, |lists[e]|) + [EndIf]
  }

  ghost function ListText(lists: Lists, l: nat): seq<Token>
    requires Grows(lists) && l < |lists|
  {
    Text(lists, l, |lists[l]|)
  }

  // ---------------------------------------------------------------- the way to the active list

  /** The tree under construction, with the open constructs and the lists from the first to the active one. */
  datatype View = View(
    labels: seq<Label>, lists: Lists, parent: seq<(nat, nat)>,
    restore: map<nat, nat>, linked: map<nat, BlockRef>, opens: seq<Open>, path: seq<nat>)
  {
    ghost function Active(): nat
      requires |path| > 0
    {
      path[|path| - 1]
    }

    /** From the last block of list `path[k]` into list `path[k + 1]`. */
    ghost predicate Leads(k: nat)
      requires k < |opens| && k + 1 < |path| && path[k] < |lists| && |lists[path[k]]| > 0
      requires opens[k].start < |labels|
    {
      var block, start := lists[path[k]][|lists[path[k]]| - 1], labels[opens[k].start];
      if start.kind == LoopStart then block == Loop(path[k + 1])
      else
        && block.Conditional? && block.condition == start.first && block.innerElse < |lists|
        && if opens[k].inElse then block.innerElse == path[k + 1]
           else block.inner == path[k + 1] && lists[block.innerElse] == []
    }

    /** What is remembered about open construct `k`. */
    ghost predicate FrameOk(k: nat)
      requires k < |opens| && k + 1 < |path|
    {
      var o, l := opens[k], path[k];
      && o.start < |labels| && labels[o.start].linkedLabel.Some?
      && l < path[k + 1] < |lists| && |lists[l]| > 0
      && o.start in linked && linked[o.start] == BlockRef(l, |lists[l]| - 1)
      && labels[o.start].linkedLabel.value in restore && restore[labels[o.start].linkedLabel.value] == l
      && Leads(k)
    }

    ghost predicate PathOk() {
      && |path| == |opens| + 1 && path[0] == 0 && Active() < |lists|
      && (forall a, b :: 0 <= a < b < |path| ==> path[a] < path[b])
      && (forall k :: 0 <= k < |opens| ==> FrameOk(k))
    }

    ghost predicate Valid() {
      Tree(lists, parent) && Grows(lists) && PathOk()
    }

    /** The text of list `path[k]` up to where list `path[k + 1]` begins. */
    ghost function StepText(k: nat): seq<Token>
      requires Valid() && k < |opens|
    {
      assert FrameOk(k);
      var l, start := path[k], labels[opens[k].start];
      var last := |lists[l]| - 1;
      assert Later(lists, lists[l][last], l);
      Text(lists, l, last) +
      (if start.kind == LoopStart then [LoopOpen]
       else if !opens[k].inElse then [If(start.first)]
       else [If(start.first)] + ListText(lists, lists[l][last].inner) + [Else])
    }

    /** The text before list `path[k]`. */
    ghost function Before(k: nat): seq<Token>
      requires Valid() && k <= |opens|
    {
      if k == 0 then [] else Before(k - 1) + StepText(k - 1)
    }

    /** All the text so far. */
    ghost function SoFar(): seq<Token>
      requires Valid()
    {
      Before(|opens|) + ListText(lists, Active())
    }
  }

  // ---------------------------------------------------------------- changing only the active list

  /** Lists other than the active one are as they were; there may be new ones. */
  ghost predicate Agree(v: View, lists': Lists)
    requires v.Valid()
  {
    && |v.lists| <= |lists'|
    && forall c :: 0 <= c < |v.lists| && c != v.Active() ==> lists'[c] == v.lists[c]
  }

  /** A list on the way belongs to the last block of the list before it on the way. */
  lemma OnTheWay(v: View, m: nat)
    requires v.Valid() && m < |v.opens|
    ensures v.path[m + 1] < |v.parent| && v.parent[v.path[m + 1]] == (v.path[m], |v.lists[v.path[m]]| - 1)
  {
    assert v.FrameOk(m);
    var l := v.path[m];
    assert BlockOk(v.parent, v.lists[l][|v.lists[l]| - 1], l, |v.lists[l]| - 1);
  }

  /** A block that is not the last one of a list on the way leads to no list on the way. */
  lemma OffTheWay(v: View, l: nat, index: nat, c: nat)
    requires v.Valid() && l < |v.lists| && l < c < |v.parent| && v.parent[c] == (l, index)
    requires l !in v.path || l == v.Active() || index < |v.lists[l]| - 1
    ensures c !in v.path
  {
    if c in v.path {
      var m :| 0 <= m < |v.path| && v.path[m] == c;
      OnTheWay(v, m - 1);
    }
  }

  /** Blocks off the way keep their text when only the active list changes. */
  lemma {:induction false} TextSame(v: View, lists': Lists, l: nat, n: nat)
    requires v.Valid() && Grows(lists') && Agree(v, lists') && l < |v.lists| && n <= |v.lists[l]|
    requires n <= |lists'[l]| && lists'[l][..n] == v.lists[l][..n]
    requires l !in v.path || l == v.Active() || n < |v.lists[l]|
    ensures Text(lists', l, n) == Text(v.lists, l, n)
    decreases |v.lists| - l, n
  {
    hide Grows, Tree;
    if n > 0 {
      assert lists'[l][..n - 1] == lists'[l][..n][..n - 1] && v.lists[l][..n - 1] == v.lists[l][..n][..n - 1];
      assert lists'[l][n - 1] == lists'[l][..n][n - 1] && v.lists[l][n - 1] == v.lists[l][..n][n - 1];
      TextSame(v, lists', l, n - 1);
      BlockSame(v, lists', l, n - 1);
    }
  }

  lemma {:induction false} BlockSame(v: View, lists': Lists, l: nat, index: nat)
    requires v.Valid() && Grows(lists') && Agree(v, lists') && l < |v.lists| && index < |v.lists[l]|
    requires index < |lists'[l]| && lists'[l][index] == v.lists[l][index]
    requires l !in v.path || l == v.Active() || index < |v.lists[l]| - 1
    ensures BlockText(lists', l, index) == BlockText(v.lists, l, index)
    decreases |v.lists| - l, index
  {
    assert v.Active() in v.path;
    assert BlockOk(v.parent, v.lists[l][index], l, index);
    match v.lists[l][index] {
      case Code(_) => {}
      case Loop(c) => {
        OffTheWay(v, l, index, c);
        TextSame(v, lists', c, |v.lists[c]|);
      }
      case Conditional(_, c, e) => {
        OffTheWay(v, l, index, c);
        OffTheWay(v, l, index, e);
        TextSame(v, lists', c, |v.lists[c]|);
        TextSame(v, lists', e, |v.lists[e]|);
      }
    }
  }

  /** The text before the active list does not depend on the active list. */
  lemma {:induction false} BeforeSame(v: View, v': View, k: nat)
    requires v.Valid() && v'.Valid() && Agree(v, v'.lists) && k <= |v.opens| && k <= |v'.opens|
    requires v.labels == v'.labels && v'.opens[..k] == v.opens[..k] && k < |v'.path| && v'.path[..k + 1] == v.path[..k + 1]
    ensures v'.Before(k) == v.Before(k)
  {
    if k > 0 {
      assert v'.opens[..k - 1] == v'.opens[..k][..k - 1] && v.opens[..k - 1] == v.opens[..k][..k - 1];
      assert v'.path[..k] == v'.path[..k + 1][..k] && v.path[..k] == v.path[..k + 1][..k];
      BeforeSame(v, v', k - 1);
      StepSame(v, v', k - 1);
    }
  }

  lemma StepSame(v: View, v': View, k: nat)
    requires v.Valid() && v'.Valid() && Agree(v, v'.lists) && k < |v.opens| && k < |v'.opens|
    requires v.labels == v'.labels && v'.opens[k] == v.opens[k] && v'.path[k] == v.path[k]
    ensures v'.StepText(k) == v.StepText(k)
  {
    assert v.FrameOk(k) && v'.FrameOk(k);
    var l := v.path[k];
    var last := |v.lists[l]| - 1;
    assert l in v.path && l != v.Active();
    assert v'.lists[l] == v.lists[l];
    TextSame(v, v'.lists, l, last);
    if v.opens[k].inElse && v.labels[v.opens[k].start].kind != LoopStart {
      InnerOff(v, k);
      assert v.Active() in v.path;
      TextSame(v, v'.lists, v.lists[l][last].inner, |v.lists[v.lists[l][last].inner]|);
    }
  }

  /** Once in the else part, the first part is off the way. */
  lemma InnerOff(v: View, k: nat)
    requires v.Valid() && k < |v.opens| && v.opens[k].inElse && v.opens[k].start < |v.labels|
    requires v.labels[v.opens[k].start].kind != LoopStart
    ensures v.path[k] < |v.lists| && |v.lists[v.path[k]]| > 0
    ensures var block := v.lists[v.path[k]][|v.lists[v.path[k]]| - 1];
      block.Conditional? && block.inner < |v.lists| && block.inner !in v.path
  {
    assert v.FrameOk(k);
    var l := v.path[k];
    var last := |v.lists[l]| - 1;
    assert BlockOk(v.parent, v.lists[l][last], l, last);
    var c := v.lists[l][last].inner;
    forall m | 0 < m < |v.path|
      ensures v.path[m] != c
    {
      OnTheWay(v, m - 1);
    }
  }

  /** Before the else part, it is off the way. */
  lemma ElseOff(v: View, k: nat)
    requires v.Valid() && k < |v.opens| && !v.opens[k].inElse && v.opens[k].start < |v.labels|
    requires v.labels[v.opens[k].start].kind != LoopStart
    ensures v.path[k] < |v.lists| && |v.lists[v.path[k]]| > 0
    ensures var block := v.lists[v.path[k]][|v.lists[v.path[k]]| - 1];
      block.Conditional? && block.innerElse !in v.path
  {
    assert v.FrameOk(k);
    var l := v.path[k];
    var last := |v.lists[l]| - 1;
    assert BlockOk(v.parent, v.lists[l][last], l, last);
    var e := v.lists[l][last].innerElse;
    forall m | 0 < m < |v.path|
      ensures v.path[m] != e
    {
      OnTheWay(v, m - 1);
    }
  }

  /** Changing the active list keeps the way to it. */
  lemma Changed(v: View, lists': Lists, parent': seq<(nat, nat)>) returns (v': View)
    requires v.Valid() && Agree(v, lists') && Tree(lists', parent')
    ensures v' == v.(lists := lists', parent := parent') && v'.Valid() && v'.Before(|v.opens|) == v.Before(|v.opens|)
  {
    v' := v.(lists := lists', parent := parent');
    TreeGrows(lists', parent');
    forall k | 0 <= k < |v.opens|
      ensures v'.FrameOk(k)
    {
      FrameSame(v, v', k);
    }
    BeforeSame(v, v', |v.opens|);
  }

  lemma FrameSame(v: View, v': View, k: nat)
    requires v.Valid() && Agree(v, v'.lists) && v' == v.(lists := v'.lists, parent := v'.parent) && k < |v.opens|
    ensures v'.FrameOk(k)
  {
    assert v.FrameOk(k);
    assert v.path[k] != v.Active() && v.Active() in v.path;
    if v.labels[v.opens[k].start].kind != LoopStart && !v.opens[k].inElse {
      ElseOff(v, k);
    }
  }

  // ---------------------------------------------------------------- what each step does to the text

  /** Adding blocks at the end of the active list. */
  lemma Appended(v: View, block: Block, lists': Lists, parent': seq<(nat, nat)>) returns (v': View)
    requires v.Valid() && Agree(v, lists') && Tree(lists', parent') && lists'[v.Active()] == v.lists[v.Active()] + [block]
    ensures v' == v.(lists := lists', parent := parent') && v'.Valid() && v'.Before(|v.opens|) == v.Before(|v.opens|)
    ensures Text(lists', v.Active(), |v.lists[v.Active()]|) == ListText(v.lists, v.Active())
  {
    v' := Changed(v, lists', parent');
    var a := v.Active();
    assert (v.lists[a] + [block])[..|v.lists[a]|] == v.lists[a][..|v.lists[a]|];
    TextSame(v, lists', a, |v.lists[a]|);
  }

  /** An instruction starts a code block. */
  lemma NewCode(v: View, i: nat, lists': Lists) returns (v': View)
    requires v.Valid() && lists' == v.lists[v.Active() := v.lists[v.Active()] + [Code([i])]]
    ensures v' == v.(lists := lists') && v'.Valid() && v'.SoFar() == v.SoFar() + [Ins(i)]
  {
    var a := v.Active();
    TreeWithCode(v, lists');
    v' := Appended(v, Code([i]), lists', v.parent);
    assert CodeTokens([i]) == [Ins(i)];
    assert BlockText(lists', a, |v.lists[a]|) == [Ins(i)];
  }

  lemma TreeWithCode(v: View, lists': Lists)
    requires v.Valid() && |lists'| == |v.lists| && Agree(v, lists')
    requires forall index :: 0 <= index < |lists'[v.Active()]| ==>
      lists'[v.Active()][index].Code? || (index < |v.lists[v.Active()]| && lists'[v.Active()][index] == v.lists[v.Active()][index])
    ensures Tree(lists', v.parent)
  {
    forall l, index | 0 <= l < |lists'| && 0 <= index < |lists'[l]|
      ensures BlockOk(v.parent, lists'[l][index], l, index)
    {
      if !lists'[l][index].Code? {
        assert lists'[l][index] == v.lists[l][index];
      }
    }
  }

  /** An instruction continues the code block at the end of the active list. */
  lemma MoreCode(v: View, i: nat, code: seq<nat>, lists': Lists) returns (v': View)
    requires v.Valid() && |v.lists[v.Active()]| > 0 && v.lists[v.Active()][|v.lists[v.Active()]| - 1] == Code(code)
    requires lists' == v.lists[v.Active() := v.lists[v.Active()][|v.lists[v.Active()]| - 1 := Code(code + [i])]]
    ensures v' == v.(lists := lists') && v'.Valid() && v'.SoFar() == v.SoFar() + [Ins(i)]
  {
    var a := v.Active();
    var last := |v.lists[a]| - 1;
    TreeWithCode(v, lists');
    v' := Changed(v, lists', v.parent);
    assert lists'[a][..last] == v.lists[a][..last];
    TextSame(v, lists', a, last);
    assert CodeTokens(code + [i]) == CodeTokens(code) + [Ins(i)];
    assert BlockText(lists', a, last) == BlockText(v.lists, a, last) + [Ins(i)];
  }

  /** The way through open construct `j` into list `c`. */
  ghost function Enter(v: View, j: nat, c: nat): View
    requires v.Valid() && j < |v.labels| && v.labels[j].linkedLabel.Some? && |v.lists[v.Active()]| > 0
  {
    var a := v.Active();
    v.(restore := v.restore[v.labels[j].linkedLabel.value := a],
       linked := v.linked[j := BlockRef(a, |v.lists[a]| - 1)],
       opens := v.opens + [Open(j, false)], path := v.path + [c])
  }

  /** The last block of the active list opens list `c`, still empty. */
  ghost predicate Opens(v: View, j: nat, c: nat)
    requires v.Valid()
  {
    && j < |v.labels| && v.labels[j].kind in {LoopStart, ConditionalStart}
    && Linked(v.labels, j, if v.labels[j].kind == LoopStart then LoopEnd else ConditionalEnd)
    && (forall o :: o in v.opens ==> OpenOk(v.labels, o, j))
    && |v.lists[v.Active()]| > 0 && v.Active() < c < |v.lists| && v.lists[c] == []
    && var block := v.lists[v.Active()][|v.lists[v.Active()]| - 1];
       if v.labels[j].kind == LoopStart then block == Loop(c)
       else block.Conditional? && block.condition == v.labels[j].first && block.inner == c
            && block.innerElse < |v.lists| && v.lists[block.innerElse] == []
  }

  lemma EnterFrame(v: View, j: nat, c: nat, k: nat)
    requires v.Valid() && Opens(v, j, c) && k < |v.opens|
    ensures Enter(v, j, c).FrameOk(k)
  {
    assert v.FrameOk(k);
    assert OpenOk(v.labels, v.opens[k], j);
  }

  lemma EnterValid(v: View, j: nat, c: nat)
    requires v.Valid() && Opens(v, j, c)
    ensures Enter(v, j, c).Valid()
  {
    hide Grows, Tree;
    var v', d := Enter(v, j, c), |v.opens|;
    forall k | 0 <= k < d + 1
      ensures v'.FrameOk(k)
    {
      if k < d {
        EnterFrame(v, j, c, k);
      }
    }
  }

  /** The way goes on into list `c`. */
  lemma Entered(v: View, j: nat, c: nat) returns (v': View)
    requires v.Valid() && Opens(v, j, c)
    ensures v' == Enter(v, j, c) && v'.Valid()
    ensures v'.SoFar() == v.Before(|v.opens|) + Text(v.lists, v.Active(), |v.lists[v.Active()]| - 1)
                          + (if v.labels[j].kind == LoopStart then [LoopOpen] else [If(v.labels[j].first)])
  {
    hide Grows, Tree, View.FrameOk;
    var d := |v.opens|;
    v' := Enter(v, j, c);
    EnterValid(v, j, c);
    assert v'.opens[..d] == v.opens[..d] && v'.path[..d + 1] == v.path[..d + 1];
    BeforeSame(v, v', d);
    assert v'.Before(d + 1) == v'.Before(d) + v'.StepText(d);
  }

  lemma TreeLength(v: View)
    requires v.Valid()
    ensures |v.lists| == |v.parent| && v.Active() < |v.lists|
  {}

  /** A loop starts. */
  lemma LoopStarted(v: View, j: nat, lists': Lists) returns (v': View)
    requires v.Valid() && j < |v.labels| && v.labels[j].kind == LoopStart && Linked(v.labels, j, LoopEnd)
    requires forall o :: o in v.opens ==> OpenOk(v.labels, o, j)
    requires lists' == v.lists[v.Active() := v.lists[v.Active()] + [Loop(|v.lists|)]] + [[]]
    ensures v'.Valid() && v'.labels == v.labels && v'.lists == lists' && v'.SoFar() == v.SoFar() + [LoopOpen]
    ensures v'.restore == v.restore[v.labels[j].linkedLabel.value := v.Active()]
    ensures v'.linked == v.linked[j := BlockRef(v.Active(), |v.lists[v.Active()]|)]
    ensures v'.opens == v.opens + [Open(j, false)] && v'.path == v.path + [|v.lists|]
  {
    hide Grows, Tree, Text, BlockText, View.FrameOk, View.Before;
    var a, c := v.Active(), |v.lists|;
    TreeLength(v);
    var parent' := v.parent + [(a, |v.lists[a]|)];
    TreeWithBlock(v, lists', parent', Loop(c));
    var w := Appended(v, Loop(c), lists', parent');
    v' := Entered(w, j, c);
  }

  lemma TreeWithBlock(v: View, lists': Lists, parent': seq<(nat, nat)>, block: Block)
    requires v.Valid() && |lists'| == |parent'| && |v.parent| <= |parent'| && parent'[..|v.parent|] == v.parent
    requires Agree(v, lists') && lists'[v.Active()] == v.lists[v.Active()] + [block]
    requires forall c :: |v.lists| <= c < |lists'| ==> lists'[c] == []
    requires BlockOk(parent', block, v.Active(), |v.lists[v.Active()]|)
    ensures Tree(lists', parent')
  {
    forall l, index | 0 <= l < |lists'| && 0 <= index < |lists'[l]|
      ensures BlockOk(parent', lists'[l][index], l, index)
    {
      assert l < |v.lists|;
      if l != v.Active() || index < |v.lists[l]| {
        assert BlockOk(v.parent, v.lists[l][index], l, index);
        BlockKept(v.parent, parent', v.lists[l][index], l, index);
      }
    }
  }

  lemma BlockKept(parent: seq<(nat, nat)>, parent': seq<(nat, nat)>, block: Block, l: nat, index: nat)
    requires |parent| <= |parent'| && parent'[..|parent|] == parent && BlockOk(parent, block, l, index)
    ensures BlockOk(parent', block, l, index)
  {
    assert forall c :: 0 <= c < |parent| ==> parent'[..|parent|][c] == parent[c];
  }

  /** A conditional starts. */
  lemma ConditionalStarted(v: View, j: nat, lists': Lists) returns (v': View)
    requires v.Valid() && j < |v.labels| && v.labels[j].kind == ConditionalStart && Linked(v.labels, j, ConditionalEnd)
    requires forall o :: o in v.opens ==> OpenOk(v.labels, o, j)
    requires lists' == v.lists[v.Active() := v.lists[v.Active()] + [Conditional(v.labels[j].first, |v.lists|, |v.lists| + 1)]] + [[], []]
    ensures v'.Valid() && v'.labels == v.labels && v'.lists == lists' && v'.SoFar() == v.SoFar() + [If(v.labels[j].first)]
    ensures v'.restore == v.restore[v.labels[j].linkedLabel.value := v.Active()]
    ensures v'.linked == v.linked[j := BlockRef(v.Active(), |v.lists[v.Active()]|)]
    ensures v'.opens == v.opens + [Open(j, false)] && v'.path == v.path + [|v.lists|]
  {
    hide Grows, Tree, Text, BlockText, View.FrameOk, View.Before;
    var a, c := v.Active(), |v.lists|;
    TreeLength(v);
    var block := Conditional(v.labels[j].first, c, c + 1);
    var parent' := v.parent + [(a, |v.lists[a]|), (a, |v.lists[a]|)];
    TreeWithBlock(v, lists', parent', block);
    var w := Appended(v, block, lists', parent');
    v' := Entered(w, j, c);
  }

  /** What the innermost open construct remembers. */
  lemma TopFrame(v: View)
    requires v.Valid() && |v.opens| > 0
    ensures var d := |v.opens| - 1; v.FrameOk(d) && v.Before(d + 1) == v.Before(d) + v.StepText(d)
  {
    assert v.FrameOk(|v.opens| - 1);
  }

  lemma Left(v: View) returns (v': View)
    requires v.Valid() && |v.opens| > 0
    ensures v' == v.(opens := v.opens[..|v.opens| - 1], path := v.path[..|v.opens|])
    ensures v'.Valid() && v'.Before(|v.opens| - 1) == v.Before(|v.opens| - 1)
  {
    var d := |v.opens| - 1;
    v' := v.(opens := v.opens[..d], path := v.path[..d + 1]);
    TopFrame(v);
    forall k | 0 <= k < d
      ensures v'.FrameOk(k)
    {
      assert v.FrameOk(k);
    }
    assert v'.opens[..d] == v.opens[..d] && v'.path[..d + 1] == v.path[..d + 1];
    BeforeSame(v, v', d);
  }

  /** A loop ends. */
  lemma LoopEnded(v: View) returns (v': View)
    requires v.Valid() && |v.opens| > 0 && v.opens[|v.opens| - 1].start < |v.labels|
    requires v.labels[v.opens[|v.opens| - 1].start].kind == LoopStart
    ensures v' == v.(opens := v.opens[..|v.opens| - 1], path := v.path[..|v.opens|])
    ensures v'.Valid() && v'.SoFar() == v.SoFar() + [LoopClose]
  {
    v' := Left(v);
    TopFrame(v);
    var l := v'.Active();
    var last := |v.lists[l]| - 1;
    assert BlockText(v.lists, l, last) == [LoopOpen] + ListText(v.lists, v.Active()) + [LoopClose];
  }

  /** A conditional ends. */
  lemma ConditionalEnded(v: View) returns (v': View)
    requires v.Valid() && |v.opens| > 0 && v.opens[|v.opens| - 1].start < |v.labels|
    requires v.labels[v.opens[|v.opens| - 1].start].kind == ConditionalStart
    ensures v' == v.(opens := v.opens[..|v.opens| - 1], path := v.path[..|v.opens|])
    ensures v'.Valid()
    ensures v'.SoFar() == v.SoFar() + if v.opens[|v.opens| - 1].inElse then [EndIf] else [Else, EndIf]
  {
    hide Grows, Tree;
    v' := Left(v);
    TopFrame(v);
    var l := v'.Active();
    var last := |v.lists[l]| - 1;
    var block := v.lists[l][last];
    LaterBlock(v.lists, l, last);
    var before, open := v.Before(|v.opens| - 1) + Text(v.lists, l, last), [If(block.condition)];
    var inner, innerElse := ListText(v.lists, block.inner), ListText(v.lists, block.innerElse);
    assert BlockText(v.lists, l, last) == open + inner + [Else] + innerElse + [EndIf];
    assert v'.SoFar() == before + (open + inner + [Else] + innerElse + [EndIf]);
    Regroup(before, open, inner, innerElse);
  }

  lemma LaterBlock(lists: Lists, l: nat, index: nat)
    requires Grows(lists) && l < |lists| && index < |lists[l]|
    ensures Later(lists, lists[l][index], l)
  {}

  lemma Regroup(before: seq<Token>, open: seq<Token>, inner: seq<Token>, innerElse: seq<Token>)
    ensures before + (open + inner + [Else] + innerElse + [EndIf]) == (before + (open + inner + [Else])) + innerElse + [EndIf]
    ensures before + (open + inner + [Else] + [] + [EndIf]) == (before + open) + inner + [Else, EndIf]
  {}

  /** The way through the else part of the innermost conditional. */
  ghost function EnterElse(v: View, e: nat): View
    requires v.Valid() && |v.opens| > 0
  {
    v.(opens := v.opens[..|v.opens| - 1] + [Open(v.opens[|v.opens| - 1].start, true)], path := v.path[..|v.opens|] + [e])
  }

  ghost predicate HasElse(v: View, e: nat)
    requires v.Valid()
  {
    && |v.opens| > 0 && v.opens[|v.opens| - 1].start < |v.labels|
    && v.labels[v.opens[|v.opens| - 1].start].kind == ConditionalStart && !v.opens[|v.opens| - 1].inElse
    && var l := v.path[|v.opens| - 1];
      && l < |v.lists| && |v.lists[l]| > 0 && v.lists[l][|v.lists[l]| - 1].Conditional?
      && v.lists[l][|v.lists[l]| - 1].innerElse == e
  }

  lemma EnterElseValid(v: View, e: nat)
    requires v.Valid() && HasElse(v, e)
    ensures EnterElse(v, e).Valid()
  {
    var v', d := EnterElse(v, e), |v.opens| - 1;
    TopFrame(v);
    LaterBlock(v.lists, v.path[d], |v.lists[v.path[d]]| - 1);
    forall k | 0 <= k < d + 1
      ensures v'.FrameOk(k)
    {
      assert v.FrameOk(k);
    }
  }

  /** The else part is still empty, and the first part is the active list. */
  lemma ElseParts(v: View, e: nat)
    requires v.Valid() && HasElse(v, e)
    ensures var d := |v.opens| - 1; var l := v.path[d];
      && e < |v.lists| && ListText(v.lists, e) == [] && v.lists[l][|v.lists[l]| - 1].inner == v.Active()
      && v.StepText(d) == Text(v.lists, l, |v.lists[l]| - 1) + [If(v.labels[v.opens[d].start].first)]
  {
    TopFrame(v);
  }

  lemma ElseStep(v: View, e: nat)
    requires v.Valid() && HasElse(v, e) && EnterElse(v, e).Valid()
    ensures var d := |v.opens| - 1; var l := v.path[d];
      EnterElse(v, e).StepText(d) == Text(v.lists, l, |v.lists[l]| - 1)
        + ([If(v.labels[v.opens[d].start].first)] + ListText(v.lists, v.Active()) + [Else])
  {
    ElseParts(v, e);
    TopFrame(EnterElse(v, e));
  }

  /** The else part begins. */
  lemma ElseStarted(v: View, e: nat) returns (v': View)
    requires v.Valid() && HasElse(v, e)
    ensures v' == EnterElse(v, e) && v'.Valid() && v'.SoFar() == v.SoFar() + [Else]
  {
    hide Grows, Tree, View.FrameOk, Text, View.StepText;
    var d := |v.opens| - 1;
    v' := EnterElse(v, e);
    EnterElseValid(v, e);
    ElseParts(v, e);
    ElseStep(v, e);
    ElseBefore(v, e);
    var l := v.path[d];
    RegroupElse(v.Before(d), Text(v.lists, l, |v.lists[l]| - 1), [If(v.labels[v.opens[d].start].first)], ListText(v.lists, v.Active()));
  }

  lemma ElseBefore(v: View, e: nat)
    requires v.Valid() && HasElse(v, e) && EnterElse(v, e).Valid()
    ensures EnterElse(v, e).Before(|v.opens| - 1) == v.Before(|v.opens| - 1)
  {
    var v', d := EnterElse(v, e), |v.opens| - 1;
    assert v'.opens[..d] == v.opens[..d] && v'.path[..d + 1] == v.path[..d + 1];
    BeforeSame(v, v', d);
  }

  lemma RegroupElse(before: seq<Token>, text: seq<Token>, open: seq<Token>, inner: seq<Token>)
    ensures before + (text + (open + inner + [Else])) + [] == before + (text + open) + inner + [Else]
  {}

  // ---------------------------------------------------------------- the algorithm

  class Shader {
    const size: nat                       // number of instructions
    const labels: seq<Label>
    var lists: Lists                      // list 0 is the shader's own
    var restoreBlockList: map<nat, nat>   // of the labels that have one
    var linkedBlock: map<nat, BlockRef>   // of the labels that have one
    var activeBlockList: nat
    var activeCodeBlock: Option<BlockRef>

    constructor (size: nat, labels: seq<Label>)
      ensures this.size == size && this.labels == labels && lists == [[]]
    {
      this.size, this.labels := size, labels;
      lists, restoreBlockList, linkedBlock, activeBlockList, activeCodeBlock := [[]], map[], map[], 0, None;
    }

    /** The fields show `v`, in which the first `j` labels are done. */
    ghost predicate Shows(v: View, j: nat)
      reads this
    {
      && v.Valid() && v.labels == labels && v.lists == lists && v.restore == restoreBlockList && v.linked == linkedBlock
      && j <= |labels| && Opened(labels, j) == Some(v.opens)
      && v.Active() == activeBlockList
      && (activeCodeBlock.Some? ==>
            && |lists[activeBlockList]| > 0 && lists[activeBlockList][|lists[activeBlockList]| - 1].Code?
            && activeCodeBlock == Some(BlockRef(activeBlockList, |lists[activeBlockList]| - 1)))
    }

    method StartLoop(j: nat, ghost v: View) returns (ghost v': View)
      requires Shows(v, j) && j < |labels| && labels[j].kind == LoopStart && Opened(labels, j + 1).Some?
      modifies this
      ensures Shows(v', j + 1) && v'.SoFar() == v.SoFar() + [LoopOpen]
    {
      hide View.Valid, View.SoFar, View.PathOk, View.FrameOk, Text;
      OpenedOk(labels, j);
      TreeLength(v);
      var inner := |lists|;
      restoreBlockList := restoreBlockList[labels[j].linkedLabel.value := activeBlockList];
      linkedBlock := linkedBlock[j := BlockRef(activeBlockList, |lists[activeBlockList]|)];
      lists := lists[activeBlockList := lists[activeBlockList] + [Loop(inner)]] + [[]];
      activeBlockList := inner;
      activeCodeBlock := None;
      v' := LoopStarted(v, j, lists);
    }

    method EndLoop(j: nat, ghost v: View) returns (ghost v': View)
      requires Shows(v, j) && j < |labels| && labels[j].kind == LoopEnd && Opened(labels, j + 1).Some?
      modifies this`activeBlockList, this`activeCodeBlock
      ensures Shows(v', j + 1) && v'.SoFar() == v.SoFar() + [LoopClose]
    {
      hide View.SoFar, Text, Tree, Grows;
      TopFrame(v);
      activeBlockList := restoreBlockList[j];
      activeCodeBlock := None;
      v' := LoopEnded(v);
    }

    method StartConditional(j: nat, ghost v: View) returns (ghost v': View)
      requires Shows(v, j) && j < |labels| && labels[j].kind == ConditionalStart && Opened(labels, j + 1).Some?
      modifies this
      ensures Shows(v', j + 1) && v'.SoFar() == v.SoFar() + [If(labels[j].first)]
    {
      hide View.Valid, View.SoFar, View.PathOk, View.FrameOk, Text;
      OpenedOk(labels, j);
      TreeLength(v);
      var inner := |lists|;
      restoreBlockList := restoreBlockList[labels[j].linkedLabel.value := activeBlockList];
      linkedBlock := linkedBlock[j := BlockRef(activeBlockList, |lists[activeBlockList]|)];
      lists := lists[activeBlockList := lists[activeBlockList] + [Conditional(labels[j].first, inner, inner + 1)]] + [[], []];
      activeBlockList := inner;
      activeCodeBlock := None;
      v' := ConditionalStarted(v, j, lists);
    }

    method StartElse(j: nat, ghost v: View) returns (ghost v': View)
      requires Shows(v, j) && j < |labels| && labels[j].kind == ConditionalElse && Opened(labels, j + 1).Some?
      modifies this`activeBlockList, this`activeCodeBlock
      ensures Shows(v', j + 1) && v'.SoFar() == v.SoFar() + [Else]
    {
      hide View.SoFar, Text, Tree, Grows;
      TopFrame(v);
      var block := linkedBlock[labels[j].linkedLabel.value];
      activeBlockList := lists[block.list][block.index].innerElse;
      activeCodeBlock := None;
      v' := ElseStarted(v, activeBlockList);
    }

    method EndConditional(j: nat, ghost v: View) returns (ghost v': View)
      requires Shows(v, j) && j < |labels| && labels[j].kind == ConditionalEnd && Opened(labels, j + 1).Some?
      modifies this`activeBlockList, this`activeCodeBlock
      ensures Shows(v', j + 1) && v'.SoFar() == v.SoFar() + if ElseSeen(labels, j) then [EndIf] else [Else, EndIf]
    {
      hide View.SoFar, Text, Tree, Grows;
      TopFrame(v);
      activeBlockList := restoreBlockList[j];
      activeCodeBlock := None;
      v' := ConditionalEnded(v);
    }

    /** An instruction goes to the active code block, or to a new one at the end of the active list. */
    method Insert(i: nat, j: nat, ghost v: View) returns (ghost v': View)
      requires Shows(v, j)
      modifies this`lists, this`activeCodeBlock
      ensures Shows(v', j) && v'.SoFar() == v.SoFar() + [Ins(i)]
    {
      hide View.Valid, View.SoFar, View.PathOk, View.FrameOk, Text;
      TreeLength(v);
      if activeCodeBlock.None? {
        activeCodeBlock := Some(BlockRef(activeBlockList, |lists[activeBlockList]|));
        lists := lists[activeBlockList := lists[activeBlockList] + [Code([i])]];
        v' := NewCode(v, i, lists);
      } else {
        var l, index := activeCodeBlock.value.list, activeCodeBlock.value.index;
        var code := lists[l][index].code;
        lists := lists[l := lists[l][index := Code(code + [i])]];
        v' := MoreCode(v, i, code, lists);
      }
    }

    /** The step for a label; says whether its instruction still goes to a code block. */
    method Process(j: nat, ghost v: View) returns (insertToCode: bool, ghost v': View)
      requires Shows(v, j) && j < |labels| && Opened(labels, j + 1).Some?
      modifies this
      ensures Shows(v', j + 1)
      ensures v'.SoFar() + (if insertToCode then [Ins(labels[j].first)] else []) == v.SoFar() + LabelTokens(labels, j)
    {
      hide View.Valid, View.SoFar, View.PathOk, View.FrameOk, Text, NextOpen;
      insertToCode := false;
      match labels[j].kind {
        case LoopStart => { v' := StartLoop(j, v); }
        case LoopEnd => { v' := EndLoop(j, v); }
        case ConditionalStart => { v' := StartConditional(j, v); }
        case ConditionalElse => { v' := StartElse(j, v); }
        case ConditionalEnd => {
          v' := EndConditional(j, v);
          insertToCode := true;
        }
        case Eliminated => {
          EliminatedOpens(labels, j);
          v' := v;
        }
      }
    }

    /** blockify: the tree's text is the structured text of the code, and the active list ends at the root. */
    method Blockify()
      requires WellNested(labels, size) && lists == [[]]
      modifies this
      ensures |lists| > 0 && Grows(lists) && ListText(lists, 0) == Structured(labels, size)
      ensures activeBlockList == 0
    {
      hide View.Valid, View.SoFar, View.Active, Text, LabelTokens, Grows, Tree, Opened, Structured, TokensAt;
      activeBlockList, activeCodeBlock, restoreBlockList, linkedBlock := 0, None, map[], map[];
      ghost var v := FirstView(labels);
      var next := 0;
      StructuredNext(labels, 0);
      for i := 0 to size
        invariant next <= |labels| && Shows(v, next) && v.SoFar() == Structured(labels, i)
        invariant forall a :: 0 <= a < next ==> labels[a].first < i
        invariant forall a :: next <= a < |labels| ==> i <= labels[a].first
      {
        var insertToCode := true;
        TokensAtNext(labels, i, next);
        StructuredNext(labels, i);
        ghost var before := v.SoFar();
        if next < |labels| && labels[next].first == i {
          OpenedBefore(labels, next + 1, |labels|);
          insertToCode, v := Process(next, v);
          next := next + 1;
        }
        assert v.SoFar() + (if insertToCode then [Ins(i)] else []) == before + TokensAt(labels, i);
        if insertToCode {
          v := Insert(i, next, v);
        } else {
          assert v.SoFar() + [] == v.SoFar();
        }
      }
      WholeText(v);
    }
  }

  lemma EliminatedOpens(labels: seq<Label>, j: nat)
    requires j < |labels| && labels[j].kind == Eliminated
    ensures Opened(labels, j + 1) == Opened(labels, j)
  {}

  lemma FirstView(labels: seq<Label>) returns (v: View)
    ensures v == View(labels, [[]], [(0, 0)], map[], map[], [], [0])
    ensures v.Valid() && v.Active() == 0 && v.SoFar() == []
    ensures Opened(labels, 0) == Some([])
  {
    v := View(labels, [[]], [(0, 0)], map[], map[], [], [0]);
  }

  lemma TokensAtNext(labels: seq<Label>, i: nat, next: nat)
    requires next <= |labels| && forall a, b :: 0 <= a < b < |labels| ==> labels[a].first < labels[b].first
    requires forall a :: 0 <= a < next ==> labels[a].first < i
    requires forall a :: next <= a < |labels| ==> i <= labels[a].first
    ensures TokensAt(labels, i) == if next < |labels| && labels[next].first == i then LabelTokens(labels, next) else [Ins(i)]
  {
    if next < |labels| && labels[next].first == i {
      assert Labels(labels, next, i);
    }
  }

  lemma StructuredNext(labels: seq<Label>, i: nat)
    ensures Structured(labels, i + 1) == Structured(labels, i) + TokensAt(labels, i)
    ensures Structured(labels, 0) == []
  {}

  /** When everything is closed the text so far is the text of the first list. */
  lemma WholeText(v: View)
    requires v.Valid() && v.opens == []
    ensures v.Active() == 0 && |v.lists| > 0 && Grows(v.lists) && v.SoFar() == ListText(v.lists, 0)
  {}

  // ---------------------------------------------------------------- code order

  /** The instructions of a text, conditions included, in order. */
  function CodeOf(tokens: seq<Token>): seq<nat> {
    if tokens == [] then []
    else
      CodeOf(tokens[..|tokens| - 1]) +
      (match tokens[|tokens| - 1]
       case Ins(i) => [i]
       case If(i) => [i]
       case _ => [])
  }

  lemma {:induction false} CodeOfAppend(a: seq<Token>, b: seq<Token>)
    ensures CodeOf(a + b) == CodeOf(a) + CodeOf(b)
    decreases |b|
  {
    if b == [] {
      assert a + b == a;
    } else {
      assert (a + b)[..|a + b| - 1] == a + b[..|b| - 1];
      CodeOfAppend(a, b[..|b| - 1]);
    }
  }

  /** The instructions that leave no trace: loop starts and ends, elses, and eliminated ones. */
  ghost predicate Removed(labels: seq<Label>, i: nat) {
    exists j: nat :: Labels(labels, j, i) && labels[j].kind in {LoopStart, LoopEnd, ConditionalElse, Eliminated}
  }

  ghost function Remaining(labels: seq<Label>, n: nat): seq<nat> {
    if n == 0 then [] else Remaining(labels, n - 1) + if Removed(labels, n - 1) then [] else [n - 1]
  }

  lemma CodeOfTwo(a: Token, b: Token, c: Token)
    ensures CodeOf([a]) == (if a.Ins? || a.If? then [a.at] else [])
    ensures CodeOf([a, b]) == CodeOf([a]) + CodeOf([b])
    ensures CodeOf([a, b, c]) == CodeOf([a]) + CodeOf([b]) + CodeOf([c])
  {
    assert [a][..0] == [] && [b][..0] == [] && [c][..0] == [];
    CodeOfAppend([a], [b]);
    CodeOfAppend([a, b], [c]);
    assert [a, b] == [a] + [b] && [a, b, c] == [a, b] + [c];
  }

  lemma CodeOfLabel(labels: seq<Label>, j: nat)
    requires j < |labels|
    ensures CodeOf(LabelTokens(labels, j)) ==
      if labels[j].kind in {LoopStart, LoopEnd, ConditionalElse, Eliminated} then [] else [labels[j].first]
  {
    hide CodeOf, ElseSeen;
    var ins := Ins(labels[j].first);
    CodeOfTwo(LoopOpen, ins, ins);
    CodeOfTwo(LoopClose, ins, ins);
    CodeOfTwo(If(labels[j].first), ins, ins);
    CodeOfTwo(Else, EndIf, ins);
    CodeOfTwo(EndIf, ins, ins);
    CodeOfTwo(ins, ins, ins);
    CodeOfNone();
    assert [EndIf] + [ins] == [EndIf, ins] && [Else, EndIf] + [ins] == [Else, EndIf, ins];
  }

  lemma CodeOfNone()
    ensures CodeOf([]) == []
  {}

  /** Structuring preserves code order: the text holds exactly the remaining instructions, in order. */
  lemma {:induction false} CodeOrder(labels: seq<Label>, n: nat, m: nat)
    requires WellNested(labels, n) && m <= n
    ensures CodeOf(Structured(labels, m)) == Remaining(labels, m)
  {
    hide CodeOf, WellNested, Structured, TokensAt;
    StructuredNext(labels, if m > 0 then m - 1 else 0);
    CodeOfNone();
    if m > 0 {
      CodeOrder(labels, n, m - 1);
      CodeOfAppend(Structured(labels, m - 1), TokensAt(labels, m - 1));
      CodeAt(labels, n, m - 1);
    }
  }

  lemma CodeAt(labels: seq<Label>, n: nat, i: nat)
    requires WellNested(labels, n)
    ensures CodeOf(TokensAt(labels, i)) == if Removed(labels, i) then [] else [i]
  {
    hide CodeOf, LabelTokens, Opened;
    CodeOfTwo(Ins(i), Ins(i), Ins(i));
    if exists j: nat :: Labels(labels, j, i) {
      var j: nat :| Labels(labels, j, i);
      CodeOfLabel(labels, j);
      OnlyLabel(labels, n, i, j);
    }
  }

  lemma OnlyLabel(labels: seq<Label>, n: nat, i: nat, j: nat)
    requires WellNested(labels, n) && Labels(labels, j, i)
    ensures forall k: nat :: Labels(labels, k, i) ==> k == j
  {}

  /** What remains is listed once each, in code order. */
  lemma {:induction false} RemainingOnce(labels: seq<Label>, n: nat)
    ensures forall i :: i in Remaining(labels, n) <==> 0 <= i < n && !Removed(labels, i)
    ensures forall a :: 0 <= a < |Remaining(labels, n)| ==> Remaining(labels, n)[a] < n
    ensures forall a, b :: 0 <= a < b < |Remaining(labels, n)| ==> Remaining(labels, n)[a] < Remaining(labels, n)[b]
  {
    if n > 0 {
      RemainingOnce(labels, n - 1);
    }
  }
}
