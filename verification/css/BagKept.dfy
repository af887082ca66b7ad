// Which stylesheets keep the bag of their facts.
module BagKept {
  import opened Selectors
  import opened StyleTree
  import opened MergePass
  import opened OtherPasses
  import opened CssToSass
  import opened DropCount
  import opened DropCondition
  import opened OutOfWay
  import opened ListedTwice
  import opened NestedPlaces
  import opened RefPlaces
  import opened BothPasses

  // What uniq! takes out in both passes.
  ghost function DroppedInAll(root: seq<Node>): nat
    requires PlainCss(root)
  {
    ExpandedReady(root);
    var nested := Merged(NestSeqs, Expanded(root), false);
    NestedReadyForRefs(Expanded(root), false);
    Dropped(NestSeqs, Expanded(root), false) + Dropped(ParentRefs, nested, false)
  }

  lemma {:induction false} SameSize<T>(a: multiset<T>, b: multiset<T>)
    requires a <= b && |a| == |b|
    ensures a == b
  {
    assert b == a + (b - a);
    assert |b - a| == 0;
  }

  // The tree between the two passes.
  ghost function Nested(root: seq<Node>): seq<Node>
    requires PlainCss(root)
  {
    ExpandedReady(root);
    Merged(NestSeqs, Expanded(root), false)
  }

  /** The chain loses as many facts as uniq! takes out nodes. It keeps every fact as often as it
      was there exactly when no rule lists a selector twice with nothing but its beginnings and
      continuations between, and no two places of a declaration come together in what
      parent_ref_rules is given. */
  lemma BagKeptIff(root: seq<Node>)
    requires PlainCss(root)
    ensures |Facts(root, TOP)| == |Facts(Built(root), TOP)| + DroppedInAll(root)
    ensures Facts(Built(root), TOP) == Facts(root, TOP) <==> DroppedInAll(root) == 0
    ensures Facts(Built(root), TOP) == Facts(root, TOP) <==>
      Safe(NestSeqs, Expanded(root)) && Safe(ParentRefs, Nested(root))
    ensures Distinct(root) ==>
      (Facts(Built(root), TOP) == Facts(root, TOP) <==> NoneMeetAgain(root) && Safe(ParentRefs, Nested(root)))
  {
    var expanded := Expanded(root);
    ExpandedReady(root);
    ExpandedFacts(root, TOP);
    var nested := Merged(NestSeqs, expanded, false);
    MergedCount(NestSeqs, expanded, false, TOP);
    NestedReadyForRefs(expanded, false);
    MergedCount(ParentRefs, nested, false, TOP);
    BackHalfFacts(Merged(ParentRefs, nested, false));
    BuiltKeepsMeaning(root);
    if DroppedInAll(root) == 0 {
      SameSize(Facts(Built(root), TOP), Facts(root, TOP));
    }
    DroppedNoneIff(NestSeqs, expanded, false);
    DroppedNoneIff(ParentRefs, nested, false);
    if Distinct(root) {
      NestedSafeIff(root);
    }
  }

  // Where nest_seqs drops nothing, parent_ref_rules does when places come together for both.
  lemma NestedApart(root: seq<Node>)
    requires PlainCss(root) && SpelledAlike(root) && Safe(NestSeqs, Expanded(root))
    ensures Safe(ParentRefs, Nested(root)) <==> Apart(BothPasses(Spelling(root)), Expanded(root))
  {
    hide Safe, Apart, Merged, Expanded, KeyOf, Dropped;
    var spelling := Spelling(root);
    ExpandedReady(root);
    DroppedNoneIff(NestSeqs, Expanded(root), false);
    NestedReadyForRefs(Expanded(root), false);
    ExpandedShaped(spelling, root);
    MergedShaped(spelling, Expanded(root), false, false);
    SinglesOf(spelling, Nested(root), false, false, false);
    MergedAlike(BothPasses(spelling), Expanded(root), false);
    MergedApart(BothPasses(spelling), Expanded(root), false);
    RefsSafeIff(spelling, Nested(root), false);
  }

  // What meets in nest_seqs alone meets in both passes.
  lemma {:induction false} NoneMeetLess(spelling: map<Key, Member>, ns: seq<Node>)
    requires NoneMeetBy(BothPasses(spelling), ns)
    ensures NoneMeetBy(OnePass, ns)
  {
    hide PathOf, OutOfTheWay;
    forall n | n in ns ensures NodeNoneMeetBy(OnePass, n) {
      assert NodeNoneMeetBy(BothPasses(spelling), n);
      match n {
        case Leaf(_) =>
        case Directive(_, kids) => NoneMeetLess(spelling, kids);
        case Rule(sels, kids) =>
          forall i: nat, j: nat ensures MeetBy(OnePass, sels, i, j) ==> MeetBy(BothPasses(spelling), sels, i, j) {
            if MeetBy(OnePass, sels, i, j) {
              forall k | i < k < j ensures Passes(BothPasses(spelling), PathOf(sels[k]), PathOf(sels[i])) {
                PassesNear(BothPasses(spelling), PathOf(sels[i]), PathOf(sels[k]));
              }
            }
          }
      }
    }
  }

  /** The chain keeps every fact of a stylesheet as often as it was there if and only if no rule
      that says something lists a selector twice with nothing in the way between. */
  lemma BagKeptOnCss(root: seq<Node>)
    requires PlainCss(root) && Distinct(root) && SpelledAlike(root)
    ensures Facts(Built(root), TOP) == Facts(root, TOP) <==> NoneMeetInAll(root)
  {
    hide Safe, Apart, NoneMeetBy, NoneMeetInAll, NoneMeetAgain, KeyOf, Built, Facts;
    var spelling := Spelling(root);
    BagKeptIff(root);
    NestedSafeIff(root);
    NoneMeetByBoth(spelling, root);
    NoneMeetByOnePass(root);
    ApartIff(BothPasses(spelling), root);
    if NoneMeetBy(BothPasses(spelling), root) {
      NoneMeetLess(spelling, root);
    }
    if NoneMeetAgain(root) {
      NestedApart(root);
    }
  }
}
