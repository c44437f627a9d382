/** Exactly when the second iteration of a body leaves the state and the branch of the first,
    whatever its instructions mean: what they hand on must not show. */
module IdleExact {
  import opened IdleLoop

  /** A value in l before instruction i may show, in the state at the end or in the branch. */
  predicate Shows(instrs: seq<Instr>, i: nat, l: Loc)
    requires i <= |instrs|
    decreases |instrs| - i, 1
  {
    || i == |instrs|
    || (l in Reads(instrs[i]) && Counts(instrs, i))
    || (l !in SureWrites(instrs[i]) && Shows(instrs, i + 1, l))
  }

  /** What instruction i reads may show: it decides the branch or writes something that shows. */
  predicate Counts(instrs: seq<Instr>, i: nat)
    requires i < |instrs|
    decreases |instrs| - i, 0
  {
    i == |instrs| - 1 || exists x | x in Writes(instrs[i]) :: Shows(instrs, i + 1, x)
  }

  /** Instructions that read what one iteration hands to the next do not count. */
  ghost predicate Settles(instrs: seq<Instr>) {
    forall j, k, l | HandsOn(instrs, j, k, l) :: !Counts(instrs, j)
  }

  lemma InfosAt(instrs: seq<Instr>, bodies: seq<Instr>, i: nat)
    requires SameInfos(instrs, bodies) && i < |instrs|
    ensures Reads(bodies[i]) == Reads(instrs[i]) && Writes(bodies[i]) == Writes(instrs[i])
    ensures SureWrites(bodies[i]) == SureWrites(instrs[i]) && RespectsInfo(bodies[i])
  {
    assert bodies[i] == instrs[i].(effect := bodies[i].effect, taken := bodies[i].taken);
  }

  // ---- what does not show may differ

  predicate Written(instrs: seq<Instr>, i: nat, l: Loc)
    requires i <= |instrs|
  {
    exists m | 0 <= m < i :: l in SureWrites(instrs[m])
  }

  ghost predicate AgreeAt(instrs: seq<Instr>, bodies: seq<Instr>, i: nat, s: State, t: State, l: Loc)
    requires i <= |instrs| == |bodies|
  {
    Shows(instrs, i, l) && (Written(instrs, i, l) || Quiet(bodies, i, s, l)) ==>
      SameAt(Run(bodies, i, s), Run(bodies, i, t), l)
  }

  /** The two iterations agree on what shows and is either written by then or not written any more. */
  ghost predicate Agree(instrs: seq<Instr>, bodies: seq<Instr>, i: nat, s: State, t: State)
    requires i <= |instrs| == |bodies|
  {
    forall l :: AgreeAt(instrs, bodies, i, s, t, l)
  }

  lemma SameOperandsAt(instrs: seq<Instr>, bodies: seq<Instr>, i: nat, s: State, t: State)
    requires SameInfos(instrs, bodies) && Settles(instrs) && i < |instrs| && Agree(instrs, bodies, i, s, t)
    requires Counts(instrs, i)
    ensures Operands(bodies, i, s) == Operands(bodies, i, t)
  {
    hide Run, Counts, Reads, Writes, SureWrites, RespectsInfo;
    InfosAt(instrs, bodies, i);
    forall l | l in Reads(bodies[i]) ensures SameAt(Run(bodies, i, s), Run(bodies, i, t), l) {
      if !Written(instrs, i, l) {
        forall k | i <= k < |bodies| ensures l !in Effect(bodies, k, s) {
          InfosAt(instrs, bodies, k);
          assert !HandsOn(instrs, i, k, l);
          EffectWithin(bodies, k, s);
        }
      }
      assert AgreeAt(instrs, bodies, i, s, t, l);
    }
    RestrictSame(Run(bodies, i, s), Run(bodies, i, t), Reads(bodies[i]));
  }

  lemma EffectWithin(bodies: seq<Instr>, k: nat, s: State)
    requires k < |bodies| && RespectsInfo(bodies[k])
    ensures SureWrites(bodies[k]) <= Effect(bodies, k, s).Keys <= Writes(bodies[k])
  {
  }

  lemma AgreeNext(instrs: seq<Instr>, bodies: seq<Instr>, i: nat, s: State, t: State)
    requires SameInfos(instrs, bodies) && Settles(instrs) && i < |instrs| && Agree(instrs, bodies, i, s, t)
    ensures Agree(instrs, bodies, i + 1, s, t)
  {
    hide Counts, Reads, Writes, SureWrites, RespectsInfo, Restrict, Settles;
    InfosAt(instrs, bodies, i);
    EffectWithin(bodies, i, s);
    EffectWithin(bodies, i, t);
    if Counts(instrs, i) {
      SameOperandsAt(instrs, bodies, i, s, t);
    }
    var n := i + 1;
    forall l ensures AgreeAt(instrs, bodies, n, s, t, l) {
      if Shows(instrs, n, l) && (Written(instrs, n, l) || Quiet(bodies, n, s, l)) {
        AgreeNextAt(instrs, bodies, i, s, t, l);
      }
    }
  }

  lemma AgreeNextAt(instrs: seq<Instr>, bodies: seq<Instr>, i: nat, s: State, t: State, l: Loc)
    requires i < |instrs| == |bodies| && AgreeAt(instrs, bodies, i, s, t, l)
    requires Shows(instrs, i + 1, l) && (Written(instrs, i + 1, l) || Quiet(bodies, i + 1, s, l))
    requires SureWrites(instrs[i]) <= Effect(bodies, i, s).Keys <= Writes(instrs[i])
    requires SureWrites(instrs[i]) <= Effect(bodies, i, t).Keys <= Writes(instrs[i])
    requires Counts(instrs, i) ==> Effect(bodies, i, s) == Effect(bodies, i, t)
    ensures SameAt(Run(bodies, i + 1, s), Run(bodies, i + 1, t), l)
  {
    hide Reads, Writes, SureWrites, Restrict;
    var w, w' := Effect(bodies, i, s), Effect(bodies, i, t);
    if !Counts(instrs, i) {
      assert l !in Writes(instrs[i]);
    }
    if l !in w {
      assert Written(instrs, i + 1, l) ==> Written(instrs, i, l);
      assert Quiet(bodies, i + 1, s, l) ==> Quiet(bodies, i, s, l);
    }
    assert Run(bodies, i + 1, s) == Run(bodies, i, s) + w && Run(bodies, i + 1, t) == Run(bodies, i, t) + w';
  }

  lemma {:induction false} AgreeThrough(instrs: seq<Instr>, bodies: seq<Instr>, i: nat, s: State, t: State)
    requires SameInfos(instrs, bodies) && Settles(instrs) && i < |instrs| && Agree(instrs, bodies, i, s, t)
    ensures Run(bodies, |bodies|, s) == Run(bodies, |bodies|, t)
    ensures BranchTaken(bodies, s) == BranchTaken(bodies, t)
    decreases |instrs| - i
  {
    hide Run, Reads, Writes, SureWrites, RespectsInfo, Restrict, Settles, Agree;
    AgreeNext(instrs, bodies, i, s, t);
    if i + 1 < |instrs| {
      AgreeThrough(instrs, bodies, i + 1, s, t);
    } else {
      SameOperandsAt(instrs, bodies, i, s, t);
      AgreeAtEnd(instrs, bodies, s, t);
    }
  }

  lemma AgreeAtEnd(instrs: seq<Instr>, bodies: seq<Instr>, s: State, t: State)
    requires |instrs| == |bodies| && Agree(instrs, bodies, |instrs|, s, t)
    ensures Run(bodies, |bodies|, s) == Run(bodies, |bodies|, t)
  {
    hide Run;
    forall l ensures SameAt(Run(bodies, |bodies|, s), Run(bodies, |bodies|, t), l) {
      assert AgreeAt(instrs, bodies, |instrs|, s, t, l);
      assert Quiet(bodies, |bodies|, s, l);
    }
    SameEverywhere(Run(bodies, |bodies|, s), Run(bodies, |bodies|, t));
  }

  /** The second iteration leaves the state and decides the branch as the first did. */
  ghost predicate Idles(bodies: seq<Instr>, s: State)
    requires bodies != []
  {
    var s1 := Run(bodies, |bodies|, s);
    Run(bodies, |bodies|, s1) == s1 && BranchTaken(bodies, s1) == BranchTaken(bodies, s)
  }

  lemma SettledIdles(instrs: seq<Instr>, bodies: seq<Instr>, s: State)
    requires instrs != [] && SameInfos(instrs, bodies) && Settles(instrs)
    ensures Idles(bodies, s)
  {
    hide Run, BranchTaken, Settles, Shows, Quiet;
    var s1 := Run(bodies, |bodies|, s);
    AtStart(bodies, s);
    AtStart(bodies, s1);
    forall l ensures AgreeAt(instrs, bodies, 0, s, s1, l) {
      if Quiet(bodies, 0, s, l) {
        QuietSettles(bodies, 0, s, l);
      }
    }
    AgreeThrough(instrs, bodies, 0, s, s1);
  }

  lemma AtStart(bodies: seq<Instr>, s: State)
    ensures Run(bodies, 0, s) == s
  {
  }

  // ---- what shows makes a difference to some meanings

  predicate Moves(instrs: seq<Instr>, m: nat, x: Loc, y: Loc)
    requires m < |instrs|
  {
    x in Reads(instrs[m]) && y in Writes(instrs[m])
  }

  /** Where a value goes that is in route[0] before instruction j: each instruction passes it on or
      moves it, up to the end or to the branch. */
  predicate IsRoute(instrs: seq<Instr>, j: nat, route: seq<Loc>) {
    && route != [] && j + |route| <= |instrs| + 1
    && (forall p | 0 <= p < |route| - 1 ::
          || Moves(instrs, j + p, route[p], route[p + 1])
          || (route[p] == route[p + 1] && route[p] !in SureWrites(instrs[j + p])))
    && (j + |route| == |instrs| + 1
        || (j + |route| == |instrs| && route[|route| - 1] in Reads(instrs[|instrs| - 1])))
  }

  lemma {:induction false} FindRoute(instrs: seq<Instr>, i: nat, l: Loc) returns (route: seq<Loc>)
    requires i <= |instrs| && Shows(instrs, i, l)
    ensures IsRoute(instrs, i, route) && route[0] == l
    ensures i < |instrs| && l in Reads(instrs[i]) && Counts(instrs, i) && |route| > 1 ==> Moves(instrs, i, l, route[1])
    decreases |instrs| - i
  {
    hide Reads, Writes, SureWrites;
    if i == |instrs| {
      route := [l];
    } else if l in Reads(instrs[i]) && Counts(instrs, i) {
      if i == |instrs| - 1 {
        route := [l];
      } else {
        var x :| x in Writes(instrs[i]) && Shows(instrs, i + 1, x);
        var rest := FindRoute(instrs, i + 1, x);
        route := Prepended(instrs, i, l, rest);
      }
    } else {
      var rest := FindRoute(instrs, i + 1, l);
      route := Prepended(instrs, i, l, rest);
    }
  }

  lemma Prepended(instrs: seq<Instr>, i: nat, l: Loc, rest: seq<Loc>) returns (route: seq<Loc>)
    requires i < |instrs| && IsRoute(instrs, i + 1, rest)
    requires Moves(instrs, i, l, rest[0]) || (l == rest[0] && l !in SureWrites(instrs[i]))
    ensures route == [l] + rest && IsRoute(instrs, i, route)
  {
    hide Reads, Writes, SureWrites;
    route := [l] + rest;
    forall p | 0 <= p < |route| - 1
      ensures || Moves(instrs, i + p, route[p], route[p + 1])
              || (route[p] == route[p + 1] && route[p] !in SureWrites(instrs[i + p]))
    {
      if p > 0 {
        assert route[p] == rest[p - 1] && route[p + 1] == rest[p] && i + p == i + 1 + (p - 1);
      }
    }
    assert route[|route| - 1] == rest[|rest| - 1];
  }

  /** What a value handed on by k to j, and its way from there, are for the meanings below. */
  datatype Way = Way(instrs: seq<Instr>, j: nat, k: nat, route: seq<Loc>) {
    function End(): int { j + |route| - 1 }

    ghost predicate Valid() {
      && IsRoute(instrs, j, route) && HandsOn(instrs, j, k, route[0])
      && (|route| > 1 ==> Moves(instrs, j, route[0], route[1]))
    }

    function At(m: nat): Loc
      requires j <= m < j + |route|
    {
      route[m - j]
    }

    predicate MovesAt(m: nat)
      requires m < |instrs|
    {
      j <= m < End() && Moves(instrs, m, At(m), At(m + 1))
    }

    /** Instruction k writes 1 to the place if no instruction of the way writes it. */
    predicate Extra(m: nat) { m == k && route != [] && route[0] !in route[1..] }

    function Moved(m: nat): nat
      requires m <= |instrs|
    {
      if m == 0 then 0 else Moved(m - 1) + if MovesAt(m - 1) then 1 else 0
    }

    /** 1 wherever an instruction surely writes; along the way, one more than before. */
    function EffectAt(m: nat, t: State): State
      requires m < |instrs| && route != []
    {
      (map z | z in SureWrites(instrs[m]) :: 1) + (if Extra(m) then map[route[0] := 1] else map[])
      + if MovesAt(m) then map[At(m + 1) := 1 + Value(t, At(m))] else map[]
    }

    function Body(m: nat): Instr
      requires m < |instrs| && route != []
    {
      instrs[m].(effect := (t: State) => EffectAt(m, t),
                 taken := (t: State) => Value(t, route[|route| - 1]) == Moved(|instrs|))
    }

    function Bodies(): (bodies: seq<Instr>)
      requires route != []
      ensures |bodies| == |instrs|
    {
      seq(|instrs|, m requires 0 <= m < |instrs| => Body(m))
    }
  }

  lemma BodiesFit(w: Way)
    requires w.Valid()
    ensures SameInfos(w.instrs, w.Bodies())
  {
    hide Reads, Writes, SureWrites;
    var bodies := w.Bodies();
    forall m | 0 <= m < |bodies|
      ensures bodies[m] == w.instrs[m].(effect := bodies[m].effect, taken := bodies[m].taken) && RespectsInfo(bodies[m])
    {
      KeysFit(w, m);
    }
  }

  lemma KeysFit(w: Way, m: nat)
    requires w.Valid() && m < |w.instrs|
    ensures RespectsInfo(w.Body(m))
  {
    hide Reads;
    var b := w.Body(m);
    SameSets(w.instrs[m], b);
    hide SureWrites, Writes;
    SureIsWritten(w.instrs[m]);
    forall s ensures SureWrites(b) <= b.effect(s).Keys <= Writes(b) {
      assert b.effect(s) == w.EffectAt(m, s);
    }
  }

  lemma SameSets(a: Instr, b: Instr)
    requires b == a.(effect := b.effect, taken := b.taken)
    ensures SureWrites(b) == SureWrites(a) && Writes(b) == Writes(a) && Reads(b) == Reads(a)
  {
  }

  lemma SureIsWritten(a: Instr)
    ensures SureWrites(a) <= Writes(a)
  {
  }

  lemma RunNext(w: Way, m: nat, s: State)
    requires w.Valid() && m < |w.instrs|
    ensures var r := Run(w.Bodies(), m, s);
      Run(w.Bodies(), m + 1, s) == r + w.EffectAt(m, Restrict(r, Reads(w.instrs[m])))
  {
    hide Reads, Restrict;
    SameSets(w.instrs[m], w.Bodies()[m]);
  }

  /** Before instruction j the place keeps its value. */
  lemma {:induction false} KeptBefore(w: Way, m: nat, s: State)
    requires w.Valid() && m <= w.j && w.route[0] in s
    ensures var r := Run(w.Bodies(), m, s); w.route[0] in r && r[w.route[0]] == s[w.route[0]]
  {
    hide Run, Reads, Restrict, SureWrites;
    if m == 0 {
      AtStart(w.Bodies(), s);
    } else {
      KeptBefore(w, m - 1, s);
      RunNext(w, m - 1, s);
    }
  }

  /** From there on the way carries it, one more for each move. */
  lemma {:induction false} Carried(w: Way, m: nat, s: State)
    requires w.Valid() && w.j <= m <= w.End() && w.route[0] in s
    ensures var r := Run(w.Bodies(), m, s); w.At(m) in r && r[w.At(m)] == s[w.route[0]] + w.Moved(m)
    ensures m > w.j ==> w.Moved(m) >= 1
  {
    hide Run, Reads, Restrict, SureWrites, Writes;
    if m == w.j {
      KeptBefore(w, m, s);
      NoMoves(w, m);
    } else {
      Carried(w, m - 1, s);
      RunNext(w, m - 1, s);
      CarriedOn(w, m - 1, Run(w.Bodies(), m - 1, s));
      FirstMove(w);
    }
  }

  lemma FirstMove(w: Way)
    requires w.Valid() && |w.route| > 1
    ensures w.MovesAt(w.j)
  {
    hide IsRoute, Reads, Writes, SureWrites;
  }

  lemma {:induction false} NoMoves(w: Way, m: nat)
    requires m <= w.j && m <= |w.instrs|
    ensures w.Moved(m) == 0
  {
    if m > 0 {
      NoMoves(w, m - 1);
    }
  }

  lemma CarriedOn(w: Way, m: nat, r: State)
    requires w.Valid() && w.j <= m < w.End() && w.At(m) in r
    ensures var r' := r + w.EffectAt(m, Restrict(r, Reads(w.instrs[m])));
      w.At(m + 1) in r' && r'[w.At(m + 1)] == r[w.At(m)] + if w.MovesAt(m) then 1 else 0
  {
    hide Reads, SureWrites, Writes;
    assert IsRoute(w.instrs, w.j, w.route);
    if w.MovesAt(m) {
      assert w.At(m) in Restrict(r, Reads(w.instrs[m]));
    } else {
      var p := m - w.j;
      assert w.route[p] == w.route[p + 1] && w.route[p] !in SureWrites(w.instrs[m]);
      if m == w.j {
        FirstMove(w);
      }
      assert w.route[p] in w.route[1..];
    }
  }

  /** Whatever is written is at least one, if what the way carries is not negative. */
  lemma WritesPositive(w: Way, m: nat, r: State, l: Loc)
    requires w.Valid() && m < |w.instrs| && (w.MovesAt(m) ==> w.At(m) in r && r[w.At(m)] >= 0)
    requires var e := w.EffectAt(m, Restrict(r, Reads(w.instrs[m]))); l in e || (l in r && r[l] >= 1)
    ensures var r' := r + w.EffectAt(m, Restrict(r, Reads(w.instrs[m]))); l in r' && r'[l] >= 1
  {
    hide Reads, SureWrites, Writes, IsRoute;
  }

  lemma {:induction false} StaysPositive(w: Way, m: nat, n: nat, s: State)
    requires w.Valid() && w.j <= m <= n <= |w.instrs| && w.route[0] in s && s[w.route[0]] == 0
    requires var r := Run(w.Bodies(), m, s); w.route[0] in r && r[w.route[0]] >= 1
    ensures var r := Run(w.Bodies(), n, s); w.route[0] in r && r[w.route[0]] >= 1
  {
    hide Run, Reads, SureWrites, Writes, Restrict;
    if m < n {
      StaysPositive(w, m, n - 1, s);
      RunNext(w, n - 1, s);
      if w.MovesAt(n - 1) {
        Carried(w, n - 1, s);
      }
      WritesPositive(w, n - 1, Run(w.Bodies(), n - 1, s), w.route[0]);
    }
  }

  /** So the place is not zero any more after an iteration that starts with zero. */
  lemma EndsPositive(w: Way, s: State)
    requires w.Valid() && w.route[0] in s && s[w.route[0]] == 0
    ensures var r := Run(w.Bodies(), |w.instrs|, s); w.route[0] in r && r[w.route[0]] >= 1
  {
    hide Run, Reads, SureWrites, Writes, Restrict;
    if w.route[0] in w.route[1..] {
      var p :| 0 <= p < |w.route[1..]| && w.route[1..][p] == w.route[0];
      var m := w.j + 1 + p;
      assert w.At(m) == w.route[0];
      Carried(w, m, s);
      StaysPositive(w, m, |w.instrs|, s);
    } else {
      RunNext(w, w.k, s);
      if w.MovesAt(w.k) {
        Carried(w, w.k, s);
      }
      WritesPositive(w, w.k, Run(w.Bodies(), w.k, s), w.route[0]);
      StaysPositive(w, w.k + 1, |w.instrs|, s);
    }
  }

  lemma {:induction false} NoMoreMoves(w: Way, m: nat)
    requires w.Valid() && w.End() <= m <= |w.instrs|
    ensures w.Moved(m) == w.Moved(w.End())
  {
    if m > w.End() {
      NoMoreMoves(w, m - 1);
    }
  }

  /** With those meanings the second iteration ends differently. */
  lemma WayShows(w: Way)
    requires w.Valid()
    ensures !Idles(w.Bodies(), map[w.route[0] := 0])
  {
    hide Run, Reads, SureWrites, Writes;
    var s: State, bodies, n := map[w.route[0] := 0], w.Bodies(), |w.instrs|;
    var s1 := Run(bodies, n, s);
    EndsPositive(w, s);
    Carried(w, w.End(), s);
    Carried(w, w.End(), s1);
    if w.End() == n {
      assert Run(bodies, n, s1)[w.At(n)] != s1[w.At(n)];
    } else {
      NoMoreMoves(w, n);
      LastReads(w, s);
      LastReads(w, s1);
    }
  }

  lemma LastReads(w: Way, s: State)
    requires w.Valid() && w.End() == |w.instrs| - 1
    requires w.At(w.End()) in Run(w.Bodies(), w.End(), s)
    ensures BranchTaken(w.Bodies(), s) <==> Run(w.Bodies(), w.End(), s)[w.At(w.End())] == w.Moved(|w.instrs|)
  {
    hide Run, Reads, SureWrites, Writes;
    var last := |w.instrs| - 1;
    SameSets(w.instrs[last], w.Bodies()[last]);
    Restricted(Run(w.Bodies(), last, s), Reads(w.instrs[last]), w.At(last));
  }

  /** Whatever the instructions mean, as far as their Info allows, the second iteration of a body
      leaves the state of the first and branches like it, if and only if no instruction that
      reads what one iteration hands to the next counts. */
  lemma IdlesExactly(instrs: seq<Instr>)
    requires instrs != []
    ensures Settles(instrs) <==> forall bodies, s | SameInfos(instrs, bodies) :: Idles(bodies, s)
  {
    hide Idles, Counts, Reads, Writes, SureWrites;
    if Settles(instrs) {
      forall bodies, s | SameInfos(instrs, bodies) ensures bodies != [] && Idles(bodies, s) {
        SettledIdles(instrs, bodies, s);
      }
    } else {
      var j, k, l :| HandsOn(instrs, j, k, l) && Counts(instrs, j);
      ReadShows(instrs, j, l);
      var route := FindRoute(instrs, j, l);
      var w := Way(instrs, j, k, route);
      BodiesFit(w);
      WayShows(w);
    }
  }

  lemma ReadShows(instrs: seq<Instr>, j: nat, l: Loc)
    requires j < |instrs| && l in Reads(instrs[j]) && Counts(instrs, j)
    ensures Shows(instrs, j, l)
  {
  }

  /** An increment and a constant for the same register: the increment reads what the iteration
      before left, but it does not count. */
  const LOAD := Instr(false, false, false, {}, {0}, {}, {}, {}, (t: State) => map[Reg(0) := 5], (t: State) => false)

  lemma DeadReadIdles()
    ensures !Careful([ADD, LOAD, BranchBack()], 0, {}, {}) && Settles([ADD, LOAD, BranchBack()])
  {
    var b, r := [ADD, LOAD, BranchBack()], Reg(0);
    assert r in Writes(b[0]) * ({} + (Reads(b[0]) - {}));
    assert r in SureWrites(b[1]) && r !in Reads(b[1]) && !Shows(b, 1, r);
    forall j: nat, k: nat, l | HandsOn(b, j, k, l) ensures !Counts(b, j) {
      assert l in Writes(b[k]);
      assert l == r && j == 0;
      assert Writes(b[0]) == {r};
    }
  }
}
