// break, continue and labels: where the language allows them, and the label stack with
// which acorn's statement parser decides it.
module Labels {
  datatype Option<+T> = None | Some(value: T)

  datatype Kind = LoopKind | SwitchKind

  /* Statements as far as jumps are concerned; `start` is where the first token stands.
     Group is anything that only contains statements: a block, if, try or with. Functions
     is a statement with function bodies somewhere in its expressions, or a function
     declaration. */
  datatype Stmt =
    | Break(start: nat, goal: Option<string>)
    | Continue(start: nat, goal: Option<string>)
    | Labeled(start: nat, name: string, body: Stmt)
    | Loop(start: nat, body: Stmt)
    | Switch(start: nat, cases: seq<Stmt>)
    | Group(start: nat, stmts: seq<Stmt>)
    | Functions(start: nat, bodies: seq<Body>)

  datatype Body = Body(stmts: seq<Stmt>)

  // A part of a statement starts behind its first token.
  predicate Placed(s: Stmt) {
    match s
    case Break(_, _) => true
    case Continue(_, _) => true
    case Labeled(start, _, body) => start < body.start && Placed(body)
    case Loop(start, body) => start < body.start && Placed(body)
    case Switch(start, cases) => forall c :: c in cases ==> start < c.start && Placed(c)
    case Group(start, stmts) => forall c :: c in stmts ==> start < c.start && Placed(c)
    case Functions(_, bodies) => forall b :: b in bodies ==> forall c :: c in b.stmts ==> Placed(c)
  }

  // ---- The rules of the language --------------------------------------------------------------

  // What stands around a statement inside its function, outermost first. A label knows
  // the statement that it and the labels behind it stand in front of.
  datatype Frame = LabelFrame(name: string, kind: Option<Kind>, start: nat) | LoopFrame | SwitchFrame

  function DirectKind(s: Stmt): Option<Kind> {
    if s.Loop? then Some(LoopKind) else if s.Switch? then Some(SwitchKind) else None
  }

  function Target(s: Stmt): (t: Stmt)
    ensures !t.Labeled?
    ensures Placed(s) ==> Placed(t) && s.start <= t.start && (s.Labeled? ==> s.start < t.start)
  {
    if s.Labeled? then Target(s.body) else s
  }

  predicate Labels(fs: seq<Frame>, name: string) {
    exists f :: f in fs && f.LabelFrame? && f.name == name
  }

  predicate LabelsLoop(fs: seq<Frame>, name: string) {
    exists f :: f in fs && f.LabelFrame? && f.name == name && f.kind == Some(LoopKind)
  }

  /** Every break and continue below has a statement to go to, and no label is used inside
      itself: sections 13.8.1, 13.9.1 and 13.13.1 of ECMA-262, 6th edition. */
  predicate Legal(s: Stmt, fs: seq<Frame>)
    decreases s
  {
    match s
    case Break(_, None) => LoopFrame in fs || SwitchFrame in fs
    case Break(_, Some(name)) => Labels(fs, name)
    case Continue(_, None) => LoopFrame in fs
    case Continue(_, Some(name)) => LabelsLoop(fs, name)
    case Labeled(_, name, body) => !Labels(fs, name) && Legal(body, fs + [FrameOf(s)])
    case Loop(_, body) => Legal(body, fs + [LoopFrame])
    case Switch(_, cases) => forall c :: c in cases ==> Legal(c, fs + [SwitchFrame])
    case Group(_, stmts) => forall c :: c in stmts ==> Legal(c, fs)
    case Functions(_, bodies) => forall b :: b in bodies ==> forall c :: c in b.stmts ==> Legal(c, [])
  }

  function FrameOf(s: Stmt): Frame
    requires s.Labeled?
  {
    LabelFrame(s.name, DirectKind(Target(s)), Target(s).start)
  }

  // ---- The label stack -------------------------------------------------------------------------

  datatype Label = Label(name: Option<string>, kind: Option<Kind>, statementStart: Option<nat>)

  const LOOP_LABEL := Label(None, Some(LoopKind), None)
  const SWITCH_LABEL := Label(None, Some(SwitchKind), None)

  // The entry of a frame once the parser has come to its statement.
  function Entry(f: Frame): Label {
    match f
    case LabelFrame(name, kind, start) => Label(Some(name), kind, Some(start))
    case LoopFrame => LOOP_LABEL
    case SwitchFrame => SWITCH_LABEL
  }

  function Entries(fs: seq<Frame>): (r: seq<Label>)
    ensures |r| == |fs|
    ensures forall i :: 0 <= i < |fs| ==> r[i] == Entry(fs[i])
  {
    seq(|fs|, i requires 0 <= i < |fs| => Entry(fs[i]))
  }

  // The entries of labels that stand right in front of s: they take s for their statement.
  function Pending(chain: seq<Frame>, s: Stmt): (r: seq<Label>)
    requires forall f :: f in chain ==> f.LabelFrame?
    ensures |r| == |chain|
    ensures forall i :: 0 <= i < |chain| ==> r[i] == Label(Some(chain[i].name), DirectKind(s), Some(s.start))
  {
    seq(|chain|, i requires 0 <= i < |chain| => Label(Some(chain[i].name), DirectKind(s), Some(s.start)))
  }

  // fs are frames around a statement at `start`, all of whose labels stand in front of
  // other statements that are around it, too.
  ghost predicate Around(fs: seq<Frame>, start: nat) {
    forall f :: f in fs && f.LabelFrame? ==>
      f.start < start && (f.kind == Some(LoopKind) ==> LoopFrame in fs) && (f.kind == Some(SwitchKind) ==> SwitchFrame in fs)
  }

  // The labels in front of s.
  ghost predicate ChainOf(chain: seq<Frame>, s: Stmt) {
    forall f :: f in chain ==> f.LabelFrame? && f.kind == DirectKind(Target(s)) && f.start == Target(s).start
  }

  // Behind its labels a statement finds the entries of the frames.
  lemma PendingDone(fs: seq<Frame>, chain: seq<Frame>, s: Stmt)
    requires ChainOf(chain, s) && !s.Labeled?
    ensures Entries(fs) + Pending(chain, s) == Entries(fs + chain)
  {
  }

  /** An accepted statement leaves the stack as it found it exactly when it is not a label
      behind other labels: that one moves the labels in front of it on to its own
      statement. */
  lemma StackAsFound(fs: seq<Frame>, chain: seq<Frame>, s: Stmt)
    requires ChainOf(chain, s) && Placed(s)
    ensures Entries(fs) + Pending(chain, s) == Entries(fs + chain) <==> chain == [] || !s.Labeled?
  {
    var before, after := Entries(fs) + Pending(chain, s), Entries(fs + chain);
    if chain != [] && s.Labeled? {
      assert before[|fs|].statementStart == Some(s.start) && after[|fs|].statementStart == Some(Target(s).start);
    } else {
      assert before == after;
    }
  }

  lemma AroundInside(fs: seq<Frame>, chain: seq<Frame>, s: Stmt, more: seq<Frame>, start: nat)
    requires Around(fs, s.start) && ChainOf(chain, s) && !s.Labeled? && s.start < start
    requires more == (if s.Loop? then [LoopFrame] else if s.Switch? then [SwitchFrame] else [])
    ensures Around(fs + chain + more, start)
  {
  }

  class LabelChecker {
    var labels: seq<Label>

    constructor ()
      ensures labels == []
    {
      labels := [];
    }

    /* parseBreakContinueStatement: is there a destination? The loop over the labels
       stops at the first that will do. */
    method ParseBreakContinueStatement(goal: Option<string>, isBreak: bool) returns (ok: bool)
      ensures ok <==> exists l :: l in labels && Destination(l, goal, isBreak)
    {
      for i := 0 to |labels|
        invariant forall k :: 0 <= k < i ==> !Destination(labels[k], goal, isBreak)
      {
        var lab := labels[i];
        assert lab in labels;
        if goal.None? || lab.name == goal {
          if lab.kind.Some? && (isBreak || lab.kind == Some(LoopKind)) {
            return true;
          }
          if goal.Some? && isBreak {
            return true;
          }
        }
      }
      ok := false;
    }

    /** Parses s, whose labels are `chain`, inside fs: it is accepted exactly when its
        jumps are legal. Then the stack is as before, except that the labels in front of
        s now know the statement behind the last of them. */
    method ParseStatement(s: Stmt, ghost fs: seq<Frame>, ghost chain: seq<Frame>) returns (ok: bool)
      requires Placed(s) && Around(fs, s.start) && ChainOf(chain, s)
      requires labels == Entries(fs) + Pending(chain, s)
      modifies this
      ensures ok <==> Legal(s, fs + chain)
      ensures ok ==> labels == Entries(fs + chain)
      ensures ok && chain == [] ==> labels == old(labels)
      decreases s, 0
    {
      if !s.Labeled? {
        PendingDone(fs, chain, s);
      }
      match s
      case Break(_, goal) =>
        JumpLegal(fs, chain, s, goal, true);
        ok := ParseBreakContinueStatement(goal, true);
      case Continue(_, goal) =>
        JumpLegal(fs, chain, s, goal, false);
        ok := ParseBreakContinueStatement(goal, false);
      case Labeled(_, _, _) =>
        ok := ParseLabeledStatement(s, fs, chain);
      case Loop(_, body) =>
        AroundInside(fs, chain, s, [LoopFrame], body.start);
        labels := labels + [LOOP_LABEL];
        ghost var inner := fs + chain + [LoopFrame];
        assert labels == Entries(inner) + Pending([], body);
        assert inner + [] == inner;
        ok := ParseStatement(body, inner, []);
        if ok {
          labels := labels[..|labels| - 1];
        }
      case Switch(_, cases) =>
        labels := labels + [SWITCH_LABEL];
        ghost var inner := fs + chain + [SwitchFrame];
        assert labels == Entries(inner);
        forall c | c in cases ensures Around(inner, c.start) {
          AroundInside(fs, chain, s, [SwitchFrame], c.start);
        }
        ok := ParseStatements(cases, inner);
        if ok {
          labels := labels[..|labels| - 1];
        }
      case Group(_, stmts) =>
        forall c | c in stmts ensures Around(fs + chain, c.start) {
          AroundInside(fs, chain, s, [], c.start);
          assert fs + chain + [] == fs + chain;
        }
        ok := ParseStatements(stmts, fs + chain);
      case Functions(_, bodies) =>
        ok := ParseFunctionBodies(bodies);
    }

    // Statements one after the other.
    method ParseStatements(stmts: seq<Stmt>, ghost fs: seq<Frame>) returns (ok: bool)
      requires forall c :: c in stmts ==> Placed(c) && Around(fs, c.start)
      requires labels == Entries(fs)
      modifies this
      ensures ok <==> forall c :: c in stmts ==> Legal(c, fs)
      ensures ok ==> labels == old(labels)
      decreases stmts, 1
    {
      for i := 0 to |stmts|
        invariant labels == old(labels)
        invariant forall k :: 0 <= k < i ==> Legal(stmts[k], fs)
      {
        assert labels == Entries(fs) + Pending([], stmts[i]) && fs + [] == fs;
        ok := ParseStatement(stmts[i], fs, []);
        if !ok {
          return;
        }
      }
      ok := true;
    }

    // parseFunctionBody: new labels inside, the old ones afterwards.
    method ParseFunctionBodies(bodies: seq<Body>) returns (ok: bool)
      requires forall b :: b in bodies ==> forall c :: c in b.stmts ==> Placed(c)
      modifies this
      ensures ok <==> forall b :: b in bodies ==> forall c :: c in b.stmts ==> Legal(c, [])
      ensures ok ==> labels == old(labels)
      decreases bodies, 2
    {
      for i := 0 to |bodies|
        invariant labels == old(labels)
        invariant forall k :: 0 <= k < i ==> forall c :: c in bodies[k].stmts ==> Legal(c, [])
      {
        var oldLabels := labels;
        labels := [];
        assert labels == Entries([]) && bodies[i] in bodies;
        ok := ParseStatements(bodies[i].stmts, []);
        if !ok {
          return;
        }
        labels := oldLabels;
      }
      ok := true;
    }

    // The first loop of parseLabeledStatement.
    method IsDeclared(name: string) returns (declared: bool)
      ensures declared <==> exists k :: 0 <= k < |labels| && labels[k].name == Some(name)
    {
      for i := 0 to |labels|
        invariant forall k :: 0 <= k < i ==> labels[k].name != Some(name)
      {
        if labels[i].name == Some(name) {
          return true;
        }
      }
      declared := false;
    }

    // The second one: the labels that took the statement at `start` for theirs take the
    // one behind it.
    method MoveStarts(start: nat, next: Stmt, ghost fs: seq<Frame>, ghost chain: seq<Frame>)
      requires Around(fs, start)
      requires forall f :: f in chain ==> f.LabelFrame?
      requires |labels| == |fs| + |chain| && labels[..|fs|] == Entries(fs)
      requires forall k :: |fs| <= k < |labels| ==> labels[k].statementStart == Some(start) && labels[k].name == Some(chain[k - |fs|].name)
      modifies this
      ensures labels == Entries(fs) + Pending(chain, next)
    {
      forall k | 0 <= k < |fs| ensures labels[k].statementStart != Some(start) {
        assert labels[..|fs|][k] == Entry(fs[k]) && fs[k] in fs;
      }
      var i := |labels|;
      while i > 0 && labels[i - 1].statementStart == Some(start)
        invariant |fs| <= i <= |labels| == |fs| + |chain|
        invariant labels[..|fs|] == Entries(fs)
        invariant forall k :: 0 <= k < |fs| ==> labels[k].statementStart != Some(start)
        invariant forall k :: |fs| <= k < i ==> labels[k].statementStart == Some(start) && labels[k].name == Some(chain[k - |fs|].name)
        invariant forall k :: i <= k < |labels| ==> labels[k] == Label(Some(chain[k - |fs|].name), DirectKind(next), Some(next.start))
      {
        labels := labels[i - 1 := labels[i - 1].(statementStart := Some(next.start), kind := DirectKind(next))];
        i := i - 1;
      }
      assert labels[|fs|..] == Pending(chain, next);
      assert labels == labels[..|fs|] + labels[|fs|..];
    }

    method ParseLabeledStatement(s: Stmt, ghost fs: seq<Frame>, ghost chain: seq<Frame>) returns (ok: bool)
      requires s.Labeled? && Placed(s) && Around(fs, s.start) && ChainOf(chain, s)
      requires labels == Entries(fs) + Pending(chain, s)
      modifies this
      ensures ok <==> Legal(s, fs + chain)
      ensures ok ==> labels == Entries(fs + chain)
      decreases s.body, 3
    {
      ghost var frame := FrameOf(s);
      LabelsOnStack(fs, chain, s, s.name);
      var declared := IsDeclared(s.name);
      if declared {
        return false;
      }
      var kind := DirectKind(s.body);
      MoveStarts(s.start, s.body, fs, chain);
      labels := labels + [Label(Some(s.name), kind, Some(s.body.start))];
      assert labels == Entries(fs) + Pending(chain + [frame], s.body);
      assert fs + (chain + [frame]) == fs + chain + [frame];
      ok := ParseStatement(s.body, fs, chain + [frame]);
      if ok {
        labels := labels[..|labels| - 1];
      }
    }
  }

  predicate Destination(l: Label, goal: Option<string>, isBreak: bool) {
    (goal.None? || l.name == goal) &&
    ((l.kind.Some? && (isBreak || l.kind == Some(LoopKind))) || (goal.Some? && isBreak))
  }

  // A label name is on the stack when it is a label of the frames.
  lemma LabelsOnStack(fs: seq<Frame>, chain: seq<Frame>, s: Stmt, name: string)
    requires ChainOf(chain, s)
    ensures
      var labels := Entries(fs) + Pending(chain, s);
      Labels(fs + chain, name) <==> exists k :: 0 <= k < |labels| && labels[k].name == Some(name)
  {
    var labels := Entries(fs) + Pending(chain, s);
    var all := fs + chain;
    forall k | 0 <= k < |labels|
      ensures labels[k].name == Some(name) <==> all[k].LabelFrame? && all[k].name == name
    {
    }
    if Labels(all, name) {
      var f :| f in all && f.LabelFrame? && f.name == name;
      var k :| 0 <= k < |all| && all[k] == f;
      assert labels[k].name == Some(name);
    }
  }

  // The stack has a destination exactly when the frames do.
  lemma JumpLegal(fs: seq<Frame>, chain: seq<Frame>, s: Stmt, goal: Option<string>, isBreak: bool)
    requires Around(fs, s.start) && ChainOf(chain, s)
    requires s == (if isBreak then Break(s.start, goal) else Continue(s.start, goal))
    ensures Legal(s, fs + chain) <==> exists l :: l in Entries(fs + chain) && Destination(l, goal, isBreak)
  {
    var all := fs + chain;
    if exists l :: l in Entries(all) && Destination(l, goal, isBreak) {
      var l :| l in Entries(all) && Destination(l, goal, isBreak);
      var k :| 0 <= k < |all| && Entries(all)[k] == l;
      LegalGoal(fs, chain, s, goal, isBreak, all[k]);
    }
    if Legal(s, all) {
      var f := GoalFrame(s, goal, isBreak, all);
      var k :| 0 <= k < |all| && all[k] == f;
      assert Entries(all)[k] == Entry(f);
    }
  }

  // A frame that a legal jump leads to.
  lemma GoalFrame(s: Stmt, goal: Option<string>, isBreak: bool, all: seq<Frame>) returns (f: Frame)
    requires s == (if isBreak then Break(s.start, goal) else Continue(s.start, goal))
    requires Legal(s, all)
    ensures f in all && Destination(Entry(f), goal, isBreak)
  {
    if goal.Some? {
      f :| f in all && f.LabelFrame? && f.name == goal.value && (!isBreak ==> f.kind == Some(LoopKind));
    } else {
      f := if LoopFrame in all then LoopFrame else SwitchFrame;
    }
  }

  // A frame with the right entry makes the jump legal.
  lemma LegalGoal(fs: seq<Frame>, chain: seq<Frame>, s: Stmt, goal: Option<string>, isBreak: bool, f: Frame)
    requires Around(fs, s.start) && ChainOf(chain, s)
    requires s == (if isBreak then Break(s.start, goal) else Continue(s.start, goal))
    requires f in fs + chain && Destination(Entry(f), goal, isBreak)
    ensures Legal(s, fs + chain)
  {
    if goal.None? && f.LabelFrame? {
      assert f !in chain && f in fs;
      var frame := if f.kind.value.LoopKind? then LoopFrame else SwitchFrame;
      assert frame in fs && frame in fs + chain;
    }
  }

  /** parseTopLevel: a program is accepted for its jumps and labels exactly when they are
      legal. */
  method ParseProgram(program: seq<Stmt>) returns (ok: bool)
    requires forall c :: c in program ==> Placed(c)
    ensures ok <==> forall c :: c in program ==> Legal(c, [])
  {
    var parser := new LabelChecker();
    assert parser.labels == Entries([]);
    ok := parser.ParseStatements(program, []);
  }
}
