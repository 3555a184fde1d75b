/** The per-line layout controller of the text engine: five invalidation flags
    recomputed in a fixed cascade (fragment cache, string, default attributes,
    syntax highlighting, typesetter), the fragment tree reconciled with newly
    typeset fragments, the memoised line-height estimate and the hit-testing
    scan over the fragments typeset so far. */
module LineControl {
  import opened TextTypes

  /** A node of the line's fragment tree: the fragment's text length (the
      tree's key) and the fragment, absent in the placeholder node the tree
      holds before anything is typeset. */
  datatype FragmentNode = FragmentNode(length: int, fragment: Option<LineFragment>)

  /** The single node a freshly reset tree holds. */
  const Placeholder: FragmentNode := FragmentNode(0, None)

  /** The node a typeset fragment is stored in. */
  function NodeFor(f: LineFragment): FragmentNode {
    FragmentNode(f.range.length, Some(f))
  }

  /** The height recorded for a node: the stored fragment's scaled height,
      0 for the placeholder. */
  function NodeHeight(n: FragmentNode): real {
    match n.fragment
    case Some(f) => f.scaledHeight
    case None => 0.0
  }

  // ---------------------------------------------------------------------------
  // Reconciling newly typeset fragments with the fragment tree
  // ---------------------------------------------------------------------------

  /** Where the loop of `updateLineHeight` stands: the tree, the index of the
      node written last (`previousNode`) and whether the cached line height
      has been cleared so far. */
  datatype Reconciliation = Reconciliation(tree: seq<FragmentNode>, previous: Option<nat>, clearsHeight: bool)

  /** The loop can place `f` without reaching for a node the tree does not
      have: `f` overwrites an existing node, or it goes after the previous
      node, or (with no previous node) after the node at `f.index - 1`. */
  predicate CanPlace(tree: seq<FragmentNode>, previous: Option<nat>, f: LineFragment) {
    || f.index < |tree|
    || (previous.Some? && previous.value < |tree|)
    || (previous.None? && 1 <= f.index <= |tree|)
  }

  /** One iteration of the loop of `updateLineHeight`: its effect is stated
      by PlaceEffect. */
  function Place(tree: seq<FragmentNode>, previous: Option<nat>, f: LineFragment): (r: Reconciliation)
    requires CanPlace(tree, previous, f)
    ensures |r.tree| == if f.index < |tree| then |tree| else |tree| + 1
  {
    if f.index < |tree| then
      Reconciliation(tree[f.index := NodeFor(f)], Some(f.index), f.baseHeight != NodeHeight(tree[f.index]))
    else
      var p: nat := if previous.Some? then previous.value else f.index - 1;
      Reconciliation(tree[..p + 1] + [NodeFor(f)] + tree[p + 1..], Some(p + 1), true)
  }

  /** A fragment whose index is below the node count overwrites that node
      and clears the cached height only when its height differs from the
      node's; any other fragment is inserted right after the previous node
      (or, with none, after the node at its index - 1) and always clears it. */
  lemma PlaceEffect(tree: seq<FragmentNode>, previous: Option<nat>, f: LineFragment)
    requires CanPlace(tree, previous, f)
    ensures var r := Place(tree, previous, f);
      f.index < |tree| ==>
      && r.tree[f.index] == NodeFor(f)
      && (forall j :: 0 <= j < |tree| && j != f.index ==> r.tree[j] == tree[j])
      && r.previous == Some(f.index)
      && r.clearsHeight == (f.baseHeight != NodeHeight(tree[f.index]))
    ensures var r := Place(tree, previous, f);
      f.index >= |tree| ==>
      var p := if previous.Some? then previous.value else f.index - 1;
      && 0 <= p < |tree|
      && r.tree[p + 1] == NodeFor(f)
      && (forall j :: 0 <= j <= p ==> r.tree[j] == tree[j])
      && (forall j :: p + 1 <= j < |tree| ==> r.tree[j + 1] == tree[j])
      && r.previous == Some(p + 1)
      && r.clearsHeight
  {
  }

  /** The state after the first `n` fragments of `fs` have been placed in
      turn, starting from `tree0` with no previous node; None when one of
      them cannot be placed, where the source reaches for a missing node. */
  function Reconciled(tree0: seq<FragmentNode>, fs: seq<LineFragment>, n: nat): (r: Option<Reconciliation>)
    requires n <= |fs|
    ensures r.Some? ==> |r.value.tree| >= |tree0|
  {
    if n == 0 then Some(Reconciliation(tree0, None, false))
    else
      match Reconciled(tree0, fs, n - 1)
      case None => None
      case Some(s) =>
        if CanPlace(s.tree, s.previous, fs[n - 1]) then
          var t := Place(s.tree, s.previous, fs[n - 1]);
          Some(Reconciliation(t.tree, t.previous, s.clearsHeight || t.clearsHeight))
        else None
  }

  /** Every one of the first `n` fragments of `fs` can be placed in turn. */
  predicate Reconcilable(tree0: seq<FragmentNode>, fs: seq<LineFragment>, n: nat)
    requires n <= |fs|
  {
    Reconciled(tree0, fs, n).Some?
  }

  /** One step of the reconciliation: when all of `fs` can be placed and the
      first `i` fragments lead to `tree` and `previous`, fragment `i` can be
      placed there and placing it gives the state after `i + 1` fragments. */
  lemma ReconciledStep(tree0: seq<FragmentNode>, fs: seq<LineFragment>, i: nat,
                       tree: seq<FragmentNode>, previous: Option<nat>, cleared: bool)
    requires i < |fs| && Reconcilable(tree0, fs, |fs|)
    requires Reconciled(tree0, fs, i) == Some(Reconciliation(tree, previous, cleared))
    ensures CanPlace(tree, previous, fs[i])
    ensures
      var t := Place(tree, previous, fs[i]);
      Reconciled(tree0, fs, i + 1) == Some(Reconciliation(t.tree, t.previous, cleared || t.clearsHeight))
  {
    ReconcilablePrefix(tree0, fs, |fs|, i + 1);
  }

  lemma {:induction false} ReconcilablePrefix(tree0: seq<FragmentNode>, fs: seq<LineFragment>, n: nat, m: nat)
    requires m <= n <= |fs| && Reconcilable(tree0, fs, n)
    ensures Reconcilable(tree0, fs, m)
    decreases n
  {
    if m < n {
      ReconcilablePrefix(tree0, fs, n - 1, m);
    }
  }

  /** The fragments carry consecutive indices, as one typesetting pass yields them. */
  predicate Consecutive(fs: seq<LineFragment>) {
    forall i :: 0 <= i < |fs| ==> fs[i].index == fs[0].index + i
  }

  /** One step of placing consecutive fragments: after `m` of them, starting
      at index `start`, the next one lands at its own index, either
      overwriting a node or appending one, and leaves every other node alone. */
  lemma PlaceNext(tree0: seq<FragmentNode>, tree: seq<FragmentNode>, previous: Option<nat>, f: LineFragment, start: nat, m: nat)
    requires |tree0| >= 1 && start <= |tree0| && f.index == start + m
    requires m == 0 ==> previous.None? && tree == tree0
    requires m > 0 ==> previous == Some(start + m - 1) && |tree| == Max(|tree0|, start + m)
    ensures CanPlace(tree, previous, f)
    ensures var t := Place(tree, previous, f);
      && t.previous == Some(start + m)
      && |t.tree| == Max(|tree0|, start + m + 1)
      && t.tree[f.index] == NodeFor(f)
      && forall j :: 0 <= j < |tree| && j != f.index ==> t.tree[j] == tree[j]
  {
    if f.index >= |tree| {
      assert |tree| == f.index;
      var t := Place(tree, previous, f);
      assert t.tree == tree + [NodeFor(f)];
    }
  }

  /** Fragments with consecutive indices starting at most at the node count
      can always be placed, and the tree grows exactly to cover the new
      indices. */
  lemma {:induction false} ConsecutiveFragmentsPlaceable(tree0: seq<FragmentNode>, fs: seq<LineFragment>, n: nat)
    requires |tree0| >= 1 && n <= |fs|
    requires Consecutive(fs) && (fs != [] ==> fs[0].index <= |tree0|)
    ensures Reconcilable(tree0, fs, n)
    ensures n == 0 ==> Reconciled(tree0, fs, n).value.previous.None? && Reconciled(tree0, fs, n).value.tree == tree0
    ensures n > 0 ==> Reconciled(tree0, fs, n).value.previous == Some(fs[0].index + n - 1)
    ensures n > 0 ==> |Reconciled(tree0, fs, n).value.tree| == Max(|tree0|, fs[0].index + n)
  {
    if n > 0 {
      ConsecutiveFragmentsPlaceable(tree0, fs, n - 1);
      var s := Reconciled(tree0, fs, n - 1).value;
      assert fs[n - 1].index == fs[0].index + (n - 1);
      PlaceNext(tree0, s.tree, s.previous, fs[n - 1], fs[0].index, n - 1);
    }
  }

  /** The contents step behind ConsecutiveFragmentsReconcile, on plain trees:
      `before` is the tree after `n - 1` placements, `after` the tree once
      fragment `n - 1` has been placed at its own index. */
  lemma ContentsAfterPlacing(tree0: seq<FragmentNode>, before: seq<FragmentNode>, after: seq<FragmentNode>, fs: seq<LineFragment>, n: nat)
    requires 0 < n <= |fs| && Consecutive(fs)
    requires forall i :: 0 <= i < n - 1 ==> fs[i].index < |before| && before[fs[i].index] == NodeFor(fs[i])
    requires |tree0| <= |before|
    requires forall j :: 0 <= j < |tree0| && (n == 1 || j < fs[0].index || fs[0].index + n - 1 <= j) ==>
               before[j] == tree0[j]
    requires |before| <= |after| && fs[n - 1].index < |after| && after[fs[n - 1].index] == NodeFor(fs[n - 1])
    requires forall j :: 0 <= j < |before| && j != fs[n - 1].index ==> after[j] == before[j]
    ensures forall i :: 0 <= i < n ==> fs[i].index < |after| && after[fs[i].index] == NodeFor(fs[i])
    ensures forall j :: 0 <= j < |tree0| && (j < fs[0].index || fs[0].index + n <= j) ==>
              after[j] == tree0[j]
  {
    var last := fs[n - 1].index;
    assert last == fs[0].index + (n - 1);
    forall i | 0 <= i < n - 1
      ensures after[fs[i].index] == NodeFor(fs[i])
    {
      assert fs[i].index == fs[0].index + i;
    }
    forall j | 0 <= j < |tree0| && (j < fs[0].index || fs[0].index + n <= j)
      ensures after[j] == tree0[j]
    {
      assert j != last;
    }
  }

  /** After placing consecutive fragments, the node at each fragment's index
      holds that fragment and every other node is as it was. */
  lemma {:induction false} ConsecutiveFragmentsReconcile(tree0: seq<FragmentNode>, fs: seq<LineFragment>, n: nat)
    requires |tree0| >= 1 && n <= |fs|
    requires Consecutive(fs) && (fs != [] ==> fs[0].index <= |tree0|)
    ensures Reconcilable(tree0, fs, n)
    ensures forall i :: 0 <= i < n ==>
              fs[i].index < |Reconciled(tree0, fs, n).value.tree| && Reconciled(tree0, fs, n).value.tree[fs[i].index] == NodeFor(fs[i])
    ensures forall j :: 0 <= j < |tree0| && (n == 0 || j < fs[0].index || fs[0].index + n <= j) ==>
              Reconciled(tree0, fs, n).value.tree[j] == tree0[j]
  {
    ConsecutiveFragmentsPlaceable(tree0, fs, n);
    if n > 0 {
      ConsecutiveFragmentsReconcile(tree0, fs, n - 1);
      ConsecutiveFragmentsPlaceable(tree0, fs, n - 1);
      var s := Reconciled(tree0, fs, n - 1).value;
      assert fs[n - 1].index == fs[0].index + (n - 1);
      PlaceNext(tree0, s.tree, s.previous, fs[n - 1], fs[0].index, n - 1);
      var after := Reconciled(tree0, fs, n).value.tree;
      assert after == Place(s.tree, s.previous, fs[n - 1]).tree;
      ContentsAfterPlacing(tree0, s.tree, after, fs, n);
    }
  }

  // ---------------------------------------------------------------------------
  // The line-height estimate
  // ---------------------------------------------------------------------------

  /** The summed scaled heights of the fragments. */
  function KnownHeight(fs: seq<LineFragment>): real {
    if fs == [] then 0.0 else KnownHeight(fs[..|fs| - 1]) + fs[|fs| - 1].scaledHeight
  }

  /** The height `lineHeight` computes when nothing is cached: one estimated
      fragment while nothing is typeset, otherwise the known heights plus an
      estimated fragment for each fragment the typesetter still expects. */
  function EstimatedLineHeight(fs: seq<LineFragment>, bestGuess: int, estimate: real, multiplier: real): real {
    if |fs| == 0 then estimate * multiplier
    else KnownHeight(fs) + (bestGuess - |fs|) as real * (estimate * multiplier)
  }

  lemma {:induction false} KnownHeightOfUniform(fs: seq<LineFragment>, h: real)
    requires forall i :: 0 <= i < |fs| ==> fs[i].scaledHeight == h
    ensures KnownHeight(fs) == |fs| as real * h
  {
    if fs != [] {
      KnownHeightOfUniform(fs[..|fs| - 1], h);
    }
  }

  /** When every typeset fragment measures exactly the estimated height, the
      estimate is the expected number of fragments times that height,
      whether or not typesetting has finished. */
  lemma UniformLineHeight(fs: seq<LineFragment>, bestGuess: int, estimate: real, multiplier: real)
    requires |fs| > 0
    requires forall i :: 0 <= i < |fs| ==> fs[i].scaledHeight == estimate * multiplier
    ensures EstimatedLineHeight(fs, bestGuess, estimate, multiplier) == bestGuess as real * (estimate * multiplier)
  {
    KnownHeightOfUniform(fs, estimate * multiplier);
  }

  // ---------------------------------------------------------------------------
  // Hit testing over the fragments typeset so far
  // ---------------------------------------------------------------------------

  /** The index of the first fragment whose bottom edge is at or below `y`;
      `|fs|` when there is none. */
  function FirstReaching(fs: seq<LineFragment>, y: real): (k: nat)
    ensures k <= |fs|
    ensures forall j :: 0 <= j < k ==> fs[j].MaxY() < y
    ensures k < |fs| ==> y <= fs[k].MaxY()
  {
    if fs == [] then 0
    else if y <= fs[0].MaxY() then 0
    else 1 + FirstReaching(fs[1..], y)
  }

  /** The fragment `lineFragment(closestTo:)` picks: the first one reaching
      down to `y`, or the last one when none does. */
  function ClosestFragmentIndex(fs: seq<LineFragment>, y: real): (k: nat)
    requires fs != []
    ensures k < |fs|
    ensures forall j :: 0 <= j < k ==> fs[j].MaxY() < y
    ensures y <= fs[k].MaxY() || k == |fs| - 1
  {
    var first := FirstReaching(fs, y);
    if first < |fs| then first else |fs| - 1
  }

  /** The three properties in ClosestFragmentIndex's contract pin the index down. */
  lemma ClosestFragmentIndexUnique(fs: seq<LineFragment>, y: real, k: nat)
    requires k < |fs|
    requires forall j :: 0 <= j < k ==> fs[j].MaxY() < y
    requires y <= fs[k].MaxY() || k == |fs| - 1
    ensures k == ClosestFragmentIndex(fs, y)
  {
  }

  // ---------------------------------------------------------------------------
  // Fragment-controller reconciliation after an asynchronous highlight
  // ---------------------------------------------------------------------------

  /** The first fragment with identity `id` (`typesetter.lineFragment(withID:)`). */
  function FragmentWithId(fs: seq<LineFragment>, id: int): (r: Option<LineFragment>)
    ensures r.Some? ==> r.value in fs && r.value.id == id
    ensures r.None? ==> forall i :: 0 <= i < |fs| ==> fs[i].id != id
  {
    if fs == [] then None
    else if fs[0].id == id then Some(fs[0])
    else FragmentWithId(fs[1..], id)
  }

  /** Every cached controller shows the current fragment with its fragment's
      identity, when the typesetter still has one. */
  function Reapplied(controllers: map<int, LineFragment>, fs: seq<LineFragment>): (r: map<int, LineFragment>)
    ensures r.Keys == controllers.Keys
    ensures forall k :: k in r ==> r[k].id == controllers[k].id
    ensures forall k :: k in controllers && (exists i :: 0 <= i < |fs| && fs[i].id == controllers[k].id) ==>
      r[k] in fs
    ensures forall k :: k in controllers && (forall i :: 0 <= i < |fs| ==> fs[i].id != controllers[k].id) ==>
      r[k] == controllers[k]
  {
    map k | k in controllers :: FragmentWithId(fs, controllers[k].id).GetOr(controllers[k])
  }

  // ---------------------------------------------------------------------------
  // The controller
  // ---------------------------------------------------------------------------

  class LineController {
    /** The estimated height of one fragment and the line-height multiplier
        of the typeset settings. */
    const estimatedLineHeight: real
    const lineHeightMultiplier: real

    var isLineFragmentCacheInvalid: bool
    var isStringInvalid: bool
    var isDefaultAttributesInvalid: bool
    var isSyntaxHighlightingInvalid: bool
    var isTypesetterInvalid: bool
    /** `_lineHeight`, the memoised line height. */
    var cachedLineHeight: Option<real>
    /** The line's text; its attributes are not modelled. */
    var attributedString: Option<string>
    /** The fragment-controller cache keyed by fragment identity; a controller
        is represented by the fragment it displays. */
    var lineFragmentControllers: map<int, LineFragment>
    var lineFragmentTree: seq<FragmentNode>
    /** The typesetter's state: the text it was last prepared with and the
        fragments it has produced since. */
    var typesetText: Option<string>
    var lineFragments: seq<LineFragment>

    ghost predicate Valid()
      reads this
    {
      |lineFragmentTree| >= 1
    }

    /** Everything starts out invalid, with a placeholder tree and no cached
        height; the injected typesetter has produced nothing yet. */
    constructor (estimatedLineHeight: real, lineHeightMultiplier: real)
      ensures Valid()
      ensures this.estimatedLineHeight == estimatedLineHeight
      ensures this.lineHeightMultiplier == lineHeightMultiplier
      ensures isLineFragmentCacheInvalid && isStringInvalid && isDefaultAttributesInvalid
      ensures isSyntaxHighlightingInvalid && isTypesetterInvalid
      ensures cachedLineHeight == None && attributedString == None
      ensures lineFragmentControllers == map[] && lineFragmentTree == [Placeholder]
      ensures typesetText == None && lineFragments == []
    {
      this.estimatedLineHeight := estimatedLineHeight;
      this.lineHeightMultiplier := lineHeightMultiplier;
      isLineFragmentCacheInvalid := true;
      isStringInvalid := true;
      isDefaultAttributesInvalid := true;
      isSyntaxHighlightingInvalid := true;
      isTypesetterInvalid := true;
      cachedLineHeight := None;
      attributedString := None;
      lineFragmentControllers := map[];
      lineFragmentTree := [Placeholder];
      typesetText := None;
      lineFragments := [];
    }

    /** The string view changed (the subscription set up in `init`). */
    method InvalidateString()
      modifies this`isStringInvalid
      ensures isStringInvalid
    {
      isStringInvalid := true;
    }

    /** Marks the default attributes and the syntax highlighting stale and
        nothing else. */
    method InvalidateSyntaxHighlighting()
      modifies this`isDefaultAttributesInvalid, this`isSyntaxHighlightingInvalid
      ensures isDefaultAttributesInvalid && isSyntaxHighlightingInvalid
    {
      isDefaultAttributesInvalid := true;
      isSyntaxHighlightingInvalid := true;
    }

    /** `prepareString`: the five stages in their fixed order. `substring` is
        what the string view returns for the line's range, `canHighlight`
        what the syntax highlighter reports; `launched` says an asynchronous
        highlight request was started. After a synchronous pass every flag is
        clear; after an asynchronous one only the syntax flag can remain set,
        exactly when a request was launched. */
    method PrepareString(async: bool, canHighlight: bool, substring: Option<string>) returns (launched: bool)
      requires Valid()
      modifies this
      ensures Valid()
      ensures !isLineFragmentCacheInvalid && !isStringInvalid && !isDefaultAttributesInvalid && !isTypesetterInvalid
      ensures lineFragmentControllers == if old(isLineFragmentCacheInvalid) then map[] else old(lineFragmentControllers)
      ensures attributedString == if old(isStringInvalid) then substring else old(attributedString)
      ensures launched == (async && canHighlight && attributedString.Some? &&
                           (old(isStringInvalid) || old(isDefaultAttributesInvalid) || old(isSyntaxHighlightingInvalid)))
      ensures isSyntaxHighlightingInvalid == launched
      ensures var reset := old(isStringInvalid) || old(isDefaultAttributesInvalid) || old(isTypesetterInvalid) ||
                           (old(isSyntaxHighlightingInvalid) && !async && canHighlight && attributedString.Some?);
              if reset then lineFragmentTree == [Placeholder] && lineFragments == [] && typesetText == attributedString
              else lineFragmentTree == old(lineFragmentTree) && lineFragments == old(lineFragments) && typesetText == old(typesetText)
      ensures cachedLineHeight == old(cachedLineHeight) && lineFragmentTree != []
    {
      ClearLineFragmentControllersIfNeeded();
      UpdateStringIfNeeded(substring);
      UpdateDefaultAttributesIfNeeded();
      launched := UpdateSyntaxHighlightingIfNeeded(async, canHighlight);
      UpdateTypesetterIfNeeded();
    }

    method ClearLineFragmentControllersIfNeeded()
      modifies this`lineFragmentControllers, this`isLineFragmentCacheInvalid
      ensures old(isLineFragmentCacheInvalid) ==> lineFragmentControllers == map[] && !isLineFragmentCacheInvalid
      ensures !old(isLineFragmentCacheInvalid) ==> unchanged(this)
    {
      if isLineFragmentCacheInvalid {
        lineFragmentControllers := map[];
        isLineFragmentCacheInvalid := false;
      }
    }

    /** Re-slices the line's text: absent when slicing fails. Clearing the
        string flag re-dirties every later stage. */
    method UpdateStringIfNeeded(substring: Option<string>)
      modifies this`attributedString, this`isStringInvalid, this`isDefaultAttributesInvalid,
               this`isSyntaxHighlightingInvalid, this`isTypesetterInvalid
      ensures old(isStringInvalid) ==>
        && attributedString == substring
        && !isStringInvalid && isDefaultAttributesInvalid && isSyntaxHighlightingInvalid && isTypesetterInvalid
      ensures !old(isStringInvalid) ==> unchanged(this)
    {
      if isStringInvalid {
        attributedString := substring;
        isStringInvalid := false;
        isDefaultAttributesInvalid := true;
        isSyntaxHighlightingInvalid := true;
        isTypesetterInvalid := true;
      }
    }

    /** Applying the default attributes and paragraph style (not modelled)
        re-dirties the syntax and typesetter stages. */
    method UpdateDefaultAttributesIfNeeded()
      modifies this`isDefaultAttributesInvalid, this`isSyntaxHighlightingInvalid, this`isTypesetterInvalid
      ensures old(isDefaultAttributesInvalid) ==>
        !isDefaultAttributesInvalid && isSyntaxHighlightingInvalid && isTypesetterInvalid
      ensures !old(isDefaultAttributesInvalid) ==> unchanged(this)
    {
      if isDefaultAttributesInvalid {
        isDefaultAttributesInvalid := false;
        isSyntaxHighlightingInvalid := true;
        isTypesetterInvalid := true;
      }
    }

    /** Without a grammar or without a string the flag is simply cleared; a
        synchronous highlight clears it and re-dirties the typesetter; an
        asynchronous one leaves it set until its completion arrives. */
    method UpdateSyntaxHighlightingIfNeeded(async: bool, canHighlight: bool) returns (launched: bool)
      modifies this`isSyntaxHighlightingInvalid, this`isTypesetterInvalid
      ensures launched == (old(isSyntaxHighlightingInvalid) && canHighlight && attributedString.Some? && async)
      ensures isSyntaxHighlightingInvalid == launched
      ensures isTypesetterInvalid ==
        (old(isTypesetterInvalid) || (old(isSyntaxHighlightingInvalid) && canHighlight && attributedString.Some? && !async))
    {
      launched := false;
      if !isSyntaxHighlightingInvalid {
        return;
      }
      if !canHighlight {
        isSyntaxHighlightingInvalid := false;
        return;
      }
      if attributedString.None? {
        isSyntaxHighlightingInvalid := false;
        return;
      }
      if async {
        launched := true;
      } else {
        isSyntaxHighlightingInvalid := false;
        isTypesetterInvalid := true;
      }
    }

    /** Resets the tree to one placeholder and the typesetter to the current
        string. */
    method UpdateTypesetterIfNeeded()
      modifies this`lineFragmentTree, this`lineFragments, this`typesetText, this`isTypesetterInvalid
      ensures old(isTypesetterInvalid) ==>
        && lineFragmentTree == [Placeholder] && lineFragments == [] && typesetText == attributedString
        && !isTypesetterInvalid
      ensures !old(isTypesetterInvalid) ==> unchanged(this)
    {
      if isTypesetterInvalid {
        lineFragmentTree := [Placeholder];
        lineFragments := [];
        typesetText := attributedString;
        isTypesetterInvalid := false;
      }
    }

    /** The completion of an asynchronous highlight. A failure changes
        nothing; a success clears the syntax flag and redisplays, which resets
        the typesetter and reconciles the fragments it yields afresh, so the
        typesetter flag ends clear and the cached height absent. */
    method HighlightCompleted(succeeded: bool, newFragments: seq<LineFragment>)
      requires Valid()
      requires succeeded ==> Reconcilable([Placeholder], newFragments, |newFragments|)
      modifies this
      ensures !succeeded ==> unchanged(this)
      ensures succeeded ==>
        && Valid()
        && !isSyntaxHighlightingInvalid && !isTypesetterInvalid
        && isLineFragmentCacheInvalid == old(isLineFragmentCacheInvalid)
        && isStringInvalid == old(isStringInvalid)
        && isDefaultAttributesInvalid == old(isDefaultAttributesInvalid)
        && attributedString == old(attributedString)
        && typesetText == attributedString
        && lineFragments == newFragments
        && lineFragmentTree == Reconciled([Placeholder], newFragments, |newFragments|).value.tree
        && cachedLineHeight == None
        && lineFragmentControllers == Reapplied(old(lineFragmentControllers), newFragments)
    {
      if succeeded {
        isSyntaxHighlightingInvalid := false;
        isTypesetterInvalid := true;
        RedisplayLineFragments(newFragments);
      }
    }

    /** `redisplayLineFragments`, reached with the typesetter flag set;
        `newFragments` is what the reset typesetter yields up to the length
        typeset before. */
    method RedisplayLineFragments(newFragments: seq<LineFragment>)
      requires Valid() && isTypesetterInvalid
      requires Reconcilable([Placeholder], newFragments, |newFragments|)
      modifies this
      ensures Valid() && !isTypesetterInvalid
      ensures isLineFragmentCacheInvalid == old(isLineFragmentCacheInvalid)
      ensures isStringInvalid == old(isStringInvalid)
      ensures isDefaultAttributesInvalid == old(isDefaultAttributesInvalid)
      ensures isSyntaxHighlightingInvalid == old(isSyntaxHighlightingInvalid)
      ensures attributedString == old(attributedString) && typesetText == attributedString
      ensures lineFragments == newFragments
      ensures lineFragmentTree == Reconciled([Placeholder], newFragments, |newFragments|).value.tree
      ensures cachedLineHeight == None
      ensures lineFragmentControllers == Reapplied(old(lineFragmentControllers), newFragments)
    {
      cachedLineHeight := None;
      UpdateTypesetterIfNeeded();
      lineFragments := lineFragments + newFragments;
      UpdateLineHeight(newFragments);
      ReapplyLineFragmentToLineFragmentControllers();
    }

    method ReapplyLineFragmentToLineFragmentControllers()
      modifies this`lineFragmentControllers
      ensures lineFragmentControllers == Reapplied(old(lineFragmentControllers), lineFragments)
    {
      lineFragmentControllers := Reapplied(lineFragmentControllers, lineFragments);
    }

    /** `updateLineHeight`: reconciles the fragments with the tree, one
        placement per fragment, clearing the cached height when a placement
        calls for it. */
    method UpdateLineHeight(fs: seq<LineFragment>)
      requires Valid()
      requires Reconcilable(lineFragmentTree, fs, |fs|)
      modifies this`lineFragmentTree, this`cachedLineHeight
      ensures Valid()
      ensures lineFragmentTree == Reconciled(old(lineFragmentTree), fs, |fs|).value.tree
      ensures cachedLineHeight ==
        if Reconciled(old(lineFragmentTree), fs, |fs|).value.clearsHeight then None else old(cachedLineHeight)
    {
      ghost var tree0 := lineFragmentTree;
      ghost var cleared := false;
      var previous: Option<nat> := None;
      var i := 0;
      while i < |fs|
        invariant 0 <= i <= |fs|
        invariant Reconciled(tree0, fs, i) == Some(Reconciliation(lineFragmentTree, previous, cleared))
        invariant cachedLineHeight == if cleared then None else old(cachedLineHeight)
      {
        ReconciledStep(tree0, fs, i, lineFragmentTree, previous, cleared);
        ghost var step := Place(lineFragmentTree, previous, fs[i]);
        previous := PlaceFragment(fs[i], previous);
        cleared := cleared || step.clearsHeight;
        i := i + 1;
      }
    }

    /** The body of `updateLineHeight`'s loop for one fragment: overwrite the
        node at the fragment's index when there is one, clearing the cached
        height if the fragment's height differs from the node's; otherwise
        insert a node after the previous one (or at the fragment's index) and
        clear the cached height. Returns the index of the node touched. */
    method PlaceFragment(f: LineFragment, previous: Option<nat>) returns (next: Option<nat>)
      requires CanPlace(lineFragmentTree, previous, f)
      modifies this`lineFragmentTree, this`cachedLineHeight
      ensures lineFragmentTree == Place(old(lineFragmentTree), previous, f).tree
      ensures next == Place(old(lineFragmentTree), previous, f).previous
      ensures cachedLineHeight ==
        if Place(old(lineFragmentTree), previous, f).clearsHeight then None else old(cachedLineHeight)
    {
      ghost var step := Place(lineFragmentTree, previous, f);
      if f.index < |lineFragmentTree| {
        var node := lineFragmentTree[f.index];
        assert step.clearsHeight == (f.baseHeight != NodeHeight(node));
        if f.baseHeight != NodeHeight(node) {
          cachedLineHeight := None;
        }
        lineFragmentTree := lineFragmentTree[f.index := NodeFor(f)];
        next := Some(f.index);
      } else if previous.Some? {
        var p := previous.value;
        assert step.clearsHeight;
        lineFragmentTree := lineFragmentTree[..p + 1] + [NodeFor(f)] + lineFragmentTree[p + 1..];
        next := Some(p + 1);
        cachedLineHeight := None;
      } else {
        var p := f.index - 1;
        assert step.clearsHeight;
        lineFragmentTree := lineFragmentTree[..p + 1] + [NodeFor(f)] + lineFragmentTree[p + 1..];
        next := Some(p + 1);
        cachedLineHeight := None;
      }
      assert lineFragmentTree == step.tree && next == step.previous;
    }

    /** `lineHeight`: the cached value when there is one, otherwise the
        estimate, which is then cached. `bestGuess` is the typesetter's
        best-guess number of fragments. */
    method LineHeight(bestGuess: int) returns (h: real)
      modifies this`cachedLineHeight
      ensures old(cachedLineHeight).Some? ==> h == old(cachedLineHeight).value && cachedLineHeight == old(cachedLineHeight)
      ensures old(cachedLineHeight).None? ==>
        h == EstimatedLineHeight(lineFragments, bestGuess, estimatedLineHeight, lineHeightMultiplier) &&
        cachedLineHeight == Some(h)
    {
      if cachedLineHeight.Some? {
        h := cachedLineHeight.value;
      } else if |lineFragments| == 0 {
        h := estimatedLineHeight * lineHeightMultiplier;
        cachedLineHeight := Some(h);
      } else {
        var knownLineFragmentHeight := KnownHeight(lineFragments);
        var remainingNumberOfLineFragments := bestGuess - |lineFragments|;
        var lineFragmentHeight := estimatedLineHeight * lineHeightMultiplier;
        h := knownLineFragmentHeight + remainingNumberOfLineFragments as real * lineFragmentHeight;
        cachedLineHeight := Some(h);
      }
    }

    /** `lineFragment(closestTo:)`: scans the fragments typeset so far. */
    method LineFragmentClosestTo(y: real) returns (r: Option<LineFragment>)
      ensures lineFragments == [] ==> r == None
      ensures lineFragments != [] ==> r == Some(lineFragments[ClosestFragmentIndex(lineFragments, y)])
    {
      r := if |lineFragments| == 0 then None else Some(lineFragments[|lineFragments| - 1]);
      var i := 0;
      while i < |lineFragments|
        invariant 0 <= i <= |lineFragments|
        invariant forall j :: 0 <= j < i ==> lineFragments[j].MaxY() < y
        invariant r == if |lineFragments| == 0 then None else Some(lineFragments[|lineFragments| - 1])
      {
        if y <= lineFragments[i].MaxY() {
          r := Some(lineFragments[i]);
          ClosestFragmentIndexUnique(lineFragments, y, i);
          return;
        }
        i := i + 1;
      }
      if lineFragments != [] {
        ClosestFragmentIndexUnique(lineFragments, y, |lineFragments| - 1);
      }
    }

    /** `location(closestTo:)`: the line's start when nothing is typeset,
        otherwise the line's start plus the index the shaping primitive
        reports in the closest fragment (`stringIndexAt`), capped at the
        line's length. */
    method LocationClosestTo(lineLocation: int, lineLength: int, y: real, stringIndexAt: LineFragment -> int)
      returns (location: int)
      ensures lineFragments == [] ==> location == lineLocation
      ensures lineFragments != [] ==>
        location == lineLocation + Min(stringIndexAt(lineFragments[ClosestFragmentIndex(lineFragments, y)]), lineLength)
      ensures location <= lineLocation + Max(lineLength, 0)
    {
      var closest := LineFragmentClosestTo(y);
      if closest.None? {
        return lineLocation;
      }
      var localLocation := Min(stringIndexAt(closest.value), lineLength);
      location := lineLocation + localLocation;
    }
  }
}
