/** The one-shot initialiser of the build information, stepped by any number of concurrent callers. */
module OneShotInit {
  import Sums

  datatype Field = Ok | Timestamp | SizeOfImage

  const FIELDS: set<Field> := {Ok, Timestamp, SizeOfImage}

  datatype Info = Info(ok: int, timestamp: nat, sizeOfImage: nat)

  const ZERO := Info(0, 0, 0)

  /** Where a caller stands. Struct copies move one field at a time, in any order. */
  datatype Caller =
    | CheckDone
    | TryClaim
    | Reading
    | Writing(value: Info, pending: set<Field>)
    | Spinning
    | Copying(got: Info, pending: set<Field>)
    | Returned(info: Info)

  /** The shared flag and struct, the callers, and the results of all header reads so far. */
  datatype State = State(flag: int, cached: Info, callers: seq<Caller>, readings: seq<Info>)

  function CopyField(f: Field, from: Info, to: Info): Info {
    match f
    case Ok => to.(ok := from.ok)
    case Timestamp => to.(timestamp := from.timestamp)
    case SizeOfImage => to.(sizeOfImage := from.sizeOfImage)
  }

  predicate SameField(f: Field, a: Info, b: Info) {
    match f
    case Ok => a.ok == b.ok
    case Timestamp => a.timestamp == b.timestamp
    case SizeOfImage => a.sizeOfImage == b.sizeOfImage
  }

  // ----- steps -----

  ghost predicate Initial(s: State) {
    && s.flag == 0 && s.cached == ZERO && s.readings == []
    && forall i :: 0 <= i < |s.callers| ==> s.callers[i] == CheckDone
  }

  function Moved(s: State, i: nat, c: Caller): State
    requires i < |s.callers|
  {
    s.(callers := s.callers[i := c])
  }

  /** One atomic step of caller i; a header read may produce anything. */
  ghost predicate Step(s: State, t: State, i: nat) {
    i < |s.callers| &&
    match s.callers[i]
    case CheckDone => t == Moved(s, i, if s.flag == 2 then Copying(ZERO, FIELDS) else TryClaim)
    case TryClaim => t == if s.flag == 0 then Moved(s, i, Reading).(flag := 1) else Moved(s, i, Spinning)
    case Reading => exists v :: t == Moved(s, i, Writing(v, FIELDS)).(readings := s.readings + [v])
    case Writing(v, pending) =>
      if pending == {} then t == Moved(s, i, Copying(ZERO, FIELDS)).(flag := 2)
      else exists f :: f in pending && t == Moved(s, i, Writing(v, pending - {f})).(cached := CopyField(f, v, s.cached))
    case Spinning => t == Moved(s, i, if s.flag == 2 then Copying(ZERO, FIELDS) else Spinning)
    case Copying(got, pending) =>
      if pending == {} then t == Moved(s, i, Returned(got))
      else exists f :: f in pending && t == Moved(s, i, Copying(CopyField(f, s.cached, got), pending - {f}))
    case Returned(_) => false
  }

  ghost predicate Next(s: State, t: State) {
    exists i :: Step(s, t, i)
  }

  ghost predicate Run(run: seq<State>) {
    |run| > 0 && Initial(run[0]) && forall n :: 0 <= n < |run| - 1 ==> Next(run[n], run[n + 1])
  }

  // ----- the invariant -----

  predicate Owns(c: Caller) {
    c.Reading? || c.Writing?
  }

  predicate Delivers(c: Caller) {
    c.Copying? || c.Returned?
  }

  /** Before the struct is published: at most the one owner touches it. */
  ghost predicate OwnerFits(s: State, c: Caller) {
    match c
    case Reading => s.readings == []
    case Writing(v, pending) =>
      s.readings == [v] && forall f :: f !in pending ==> SameField(f, s.cached, v)
    case _ => true
  }

  ghost predicate CopyFits(s: State, c: Caller) {
    match c
    case Copying(got, pending) => forall f :: f !in pending ==> SameField(f, got, s.cached)
    case Returned(info) => info == s.cached
    case _ => true
  }

  ghost predicate OwnerIs(s: State, o: nat) {
    o < |s.callers| && Owns(s.callers[o]) && forall i :: 0 <= i < |s.callers| && i != o ==> !Owns(s.callers[i])
  }

  ghost predicate OneOwner(s: State) {
    exists o :: OwnerIs(s, o)
  }

  ghost predicate Safe(s: State) {
    && 0 <= s.flag <= 2
    && (forall i :: 0 <= i < |s.callers| ==> OwnerFits(s, s.callers[i]) && CopyFits(s, s.callers[i]))
    && (s.flag < 2 ==> forall i :: 0 <= i < |s.callers| ==> !Delivers(s.callers[i]))
    && (s.flag == 1 ==> OneOwner(s))
    && (s.flag != 1 ==> forall i :: 0 <= i < |s.callers| ==> !Owns(s.callers[i]))
    && (s.flag == 0 ==> s.readings == [] && forall i :: 0 <= i < |s.callers| ==> !s.callers[i].Spinning?)
    && (s.flag == 2 ==> s.readings == [s.cached])
  }

  lemma AllFields(a: Info, b: Info)
    requires forall f: Field :: SameField(f, a, b)
    ensures a == b
  {
    assert SameField(Ok, a, b) && SameField(Timestamp, a, b) && SameField(SizeOfImage, a, b);
  }

  lemma EveryField()
    ensures forall f: Field :: f in FIELDS
  {
    forall f: Field ensures f in FIELDS {
      match f {
        case Ok =>
        case Timestamp =>
        case SizeOfImage =>
      }
    }
  }

  lemma CopiedField(f: Field, from: Info, to: Info)
    ensures SameField(f, CopyField(f, from, to), from)
    ensures forall g :: g != f ==> SameField(g, CopyField(f, from, to), to)
  {
  }

  lemma ClaimSafe(s: State, t: State, i: nat)
    requires Safe(s) && Step(s, t, i) && s.callers[i].TryClaim?
    ensures Safe(t)
  {
    if s.flag == 0 {
      assert OwnerIs(t, i);
    } else if s.flag == 1 {
      OwnerStays(s, t, i);
    }
  }

  lemma OwnerStays(s: State, t: State, i: nat)
    requires i < |s.callers| && |t.callers| == |s.callers| && OneOwner(s)
    requires forall k :: 0 <= k < |s.callers| && k != i ==> t.callers[k] == s.callers[k]
    requires Owns(s.callers[i]) <==> Owns(t.callers[i])
    ensures OneOwner(t)
  {
    var o: nat :| OwnerIs(s, o);
    assert OwnerIs(t, o);
  }

  lemma OnlyOwner(s: State, i: nat)
    requires OneOwner(s) && i < |s.callers| && Owns(s.callers[i])
    ensures forall k :: 0 <= k < |s.callers| && k != i ==> !Owns(s.callers[k])
  {
  }

  lemma ReadSafe(s: State, t: State, i: nat)
    requires Safe(s) && Step(s, t, i) && s.callers[i].Reading?
    ensures Safe(t)
  {
    var v :| t == Moved(s, i, Writing(v, FIELDS)).(readings := s.readings + [v]);
    OnlyOwner(s, i);
    OwnerStays(s, t, i);
    assert t.readings == [v];
    EveryField();
  }

  lemma WriteSafe(s: State, t: State, i: nat)
    requires Safe(s) && Step(s, t, i) && s.callers[i].Writing?
    ensures Safe(t)
  {
    var v, pending := s.callers[i].value, s.callers[i].pending;
    assert OwnerFits(s, s.callers[i]);
    OnlyOwner(s, i);
    if pending == {} {
      AllFields(s.cached, v);
      EveryField();
    } else {
      var f :| f in pending && t == Moved(s, i, Writing(v, pending - {f})).(cached := CopyField(f, v, s.cached));
      CopiedField(f, v, s.cached);
      OwnerStays(s, t, i);
    }
  }

  lemma CopySafe(s: State, t: State, i: nat)
    requires Safe(s) && Step(s, t, i) && s.callers[i].Copying?
    ensures Safe(t)
  {
    var got, pending := s.callers[i].got, s.callers[i].pending;
    assert CopyFits(s, s.callers[i]);
    if pending == {} {
      AllFields(got, s.cached);
    } else {
      var f :| f in pending && t == Moved(s, i, Copying(CopyField(f, s.cached, got), pending - {f}));
      CopiedField(f, s.cached, got);
    }
  }

  lemma WaitSafe(s: State, t: State, i: nat)
    requires Safe(s) && Step(s, t, i) && (s.callers[i].CheckDone? || s.callers[i].Spinning?)
    ensures Safe(t)
  {
    EveryField();
    if s.flag == 1 {
      OwnerStays(s, t, i);
    }
  }

  lemma StepSafe(s: State, t: State, i: nat)
    requires Safe(s) && Step(s, t, i)
    ensures Safe(t)
  {
    match s.callers[i] {
      case CheckDone => WaitSafe(s, t, i);
      case TryClaim => ClaimSafe(s, t, i);
      case Reading => ReadSafe(s, t, i);
      case Writing(_, _) => WriteSafe(s, t, i);
      case Spinning => WaitSafe(s, t, i);
      case Copying(_, _) => CopySafe(s, t, i);
      case Returned(_) =>
    }
  }

  // ----- whole runs -----

  lemma {:induction false} ReachableSafe(run: seq<State>, n: nat)
    requires Run(run) && n < |run|
    ensures Safe(run[n])
  {
    if n > 0 {
      ReachableSafe(run, n - 1);
      assert Next(run[n - 1], run[n - 1 + 1]);
      var i :| Step(run[n - 1], run[n], i);
      StepSafe(run[n - 1], run[n], i);
    }
  }

  /** The flag climbs one at a time, the header reads only grow, a published struct stays as it is. */
  lemma StepMonotone(s: State, t: State, i: nat)
    requires Safe(s) && Step(s, t, i)
    ensures |t.callers| == |s.callers|
    ensures s.flag <= t.flag <= s.flag + 1
    ensures s.readings <= t.readings
    ensures s.flag == 2 ==> t.cached == s.cached
    ensures forall k :: 0 <= k < |s.callers| && s.callers[k].Returned? ==> t.callers[k] == s.callers[k]
  {
    if s.callers[i].Writing? && s.callers[i].pending != {} {
      assert OwnerFits(s, s.callers[i]) && Owns(s.callers[i]);
    }
  }

  lemma {:induction false} RunMonotone(run: seq<State>, m: nat, n: nat)
    requires Run(run) && m <= n < |run|
    ensures run[m].flag <= run[n].flag && run[m].readings <= run[n].readings && |run[m].callers| == |run[n].callers|
    ensures run[m].flag == 2 ==> run[n].cached == run[m].cached
    decreases n
  {
    if n > m {
      RunMonotone(run, m, n - 1);
      ReachableSafe(run, n - 1);
      assert Next(run[n - 1], run[n - 1 + 1]);
      var i :| Step(run[n - 1], run[n], i);
      StepMonotone(run[n - 1], run[n], i);
    }
  }

  /** In every run the headers are read at most once, and by one caller only. */
  lemma HeadersReadOnce(run: seq<State>, n: nat, i: nat, j: nat)
    requires Run(run) && n < |run|
    ensures |run[n].readings| <= 1
    ensures i < |run[n].callers| && j < |run[n].callers| && Owns(run[n].callers[i]) && Owns(run[n].callers[j]) ==>
      i == j
  {
    ReachableSafe(run, n);
    var s := run[n];
    if s.flag == 1 {
      var o: nat :| OwnerIs(s, o);
      assert OwnerFits(s, s.callers[o]);
    }
  }

  /** Whenever and wherever callers return in a run, they return the one value read from the headers. */
  lemma EveryCallerAgrees(run: seq<State>, m: nat, n: nat, i: nat, j: nat)
    requires Run(run) && m < |run| && n < |run|
    requires i < |run[m].callers| && run[m].callers[i].Returned?
    requires j < |run[n].callers| && run[n].callers[j].Returned?
    ensures run[m].callers[i].info == run[n].callers[j].info
    ensures run[m].readings == [run[m].callers[i].info] && run[n].readings == [run[n].callers[j].info]
  {
    ReachableSafe(run, m);
    ReachableSafe(run, n);
    assert CopyFits(run[m], run[m].callers[i]) && CopyFits(run[n], run[n].callers[j]);
    assert Delivers(run[m].callers[i]) && Delivers(run[n].callers[j]);
    if m <= n {
      RunMonotone(run, m, n);
    } else {
      RunMonotone(run, n, m);
    }
  }

  // ----- progress -----

  function Remaining(c: Caller): nat {
    match c
    case CheckDone => 12
    case TryClaim => 11
    case Reading => 10
    case Writing(_, pending) => 6 + |pending|
    case Spinning => 5
    case Copying(_, pending) => 1 + |pending|
    case Returned(_) => 0
  }

  function Work(s: State): int {
    Sums.Sum(seq(|s.callers|, i requires 0 <= i < |s.callers| => Remaining(s.callers[i])))
  }

  lemma FieldCount()
    ensures |FIELDS| == 3
  {
  }

  /** Every step that changes anything uses up work, so a run has a bounded number of them. */
  lemma StepWorks(s: State, t: State, i: nat)
    requires Step(s, t, i) && t != s
    ensures Work(t) < Work(s)
  {
    FieldCount();
    var a := seq(|s.callers|, k requires 0 <= k < |s.callers| => Remaining(s.callers[k]));
    var b := seq(|t.callers|, k requires 0 <= k < |t.callers| => Remaining(t.callers[k]));
    assert b == a[i := Remaining(t.callers[i])];
    Sums.SumUpdate(a, i, Remaining(t.callers[i]));
  }

  ghost function Changes(run: seq<State>): nat
    decreases |run|
  {
    if |run| < 2 then 0
    else Changes(run[..|run| - 1]) + (if run[|run| - 1] != run[|run| - 2] then 1 else 0)
  }

  lemma {:induction false} ChangesUseWork(run: seq<State>)
    requires Run(run)
    ensures Changes(run) <= Work(run[0]) - Work(run[|run| - 1])
    decreases |run|
  {
    if |run| >= 2 {
      var front, n := run[..|run| - 1], |run| - 2;
      forall k | 0 <= k < |front| - 1 ensures Next(front[k], front[k + 1]) {
        assert Next(run[k], run[k + 1]);
      }
      ChangesUseWork(front);
      assert Next(run[n], run[n + 1]);
      var i :| Step(run[n], run[n + 1], i);
      if run[n + 1] != run[n] {
        StepWorks(run[n], run[n + 1], i);
      }
    }
  }

  /** However the callers are interleaved, at most twelve steps per caller change anything; the rest spin. */
  lemma RunIsBounded(run: seq<State>)
    requires Run(run)
    ensures Changes(run) <= 12 * |run[0].callers|
  {
    ChangesUseWork(run);
    var first, last := run[0], run[|run| - 1];
    assert seq(|first.callers|, i requires 0 <= i < |first.callers| => Remaining(first.callers[i]))
        == seq(|first.callers|, _ => 12);
    Sums.SumConstant(|first.callers|, 12);
    Sums.SumNonNegative(seq(|last.callers|, i requires 0 <= i < |last.callers| => Remaining(last.callers[i])));
  }

  lemma CanMove(s: State, i: nat)
    requires Safe(s) && i < |s.callers| && !s.callers[i].Returned? && !(s.callers[i].Spinning? && s.flag != 2)
    ensures exists t :: Step(s, t, i) && t != s
  {
    var t: State;
    match s.callers[i] {
      case CheckDone => t := Moved(s, i, if s.flag == 2 then Copying(ZERO, FIELDS) else TryClaim);
      case TryClaim => t := if s.flag == 0 then Moved(s, i, Reading).(flag := 1) else Moved(s, i, Spinning);
      case Reading => t := Moved(s, i, Writing(ZERO, FIELDS)).(readings := s.readings + [ZERO]);
      case Writing(v, pending) =>
        if pending == {} {
          t := Moved(s, i, Copying(ZERO, FIELDS)).(flag := 2);
        } else {
          var f := SomeField(pending);
          t := Moved(s, i, Writing(v, pending - {f})).(cached := CopyField(f, v, s.cached));
        }
      case Spinning => t := Moved(s, i, Copying(ZERO, FIELDS));
      case Copying(got, pending) =>
        if pending == {} {
          t := Moved(s, i, Returned(got));
        } else {
          var f := SomeField(pending);
          t := Moved(s, i, Copying(CopyField(f, s.cached, got), pending - {f}));
        }
    }
    assert Step(s, t, i);
    assert t.callers[i] != s.callers[i];
  }

  function SomeField(pending: set<Field>): (f: Field)
    requires pending != {}
    ensures f in pending
  {
    assert pending <= FIELDS by { EveryField(); }
    if Ok in pending then Ok
    else if Timestamp in pending then Timestamp
    else SizeOfImage
  }

  /** Spinners never wait for nobody: until all callers have returned, some caller can move on. */
  lemma NeverStuck(run: seq<State>, n: nat, i: nat)
    requires Run(run) && n < |run| && i < |run[n].callers| && !run[n].callers[i].Returned?
    ensures exists t :: Next(run[n], t) && t != run[n]
  {
    var s := run[n];
    ReachableSafe(run, n);
    var mover := i;
    if s.callers[i].Spinning? && s.flag != 2 {
      var o: nat :| OwnerIs(s, o);
      mover := o;
    }
    CanMove(s, mover);
    var t :| Step(s, t, mover) && t != s;
    assert Next(s, t);
  }
}
