/**
  The fixed recognizer automaton: four states, three event kinds and six
  transitions, held as an explicit transition table in place of the external
  state-machine library. The language it accepts is proved to be b(a+b)*(b|c).
 */
module Automaton {
  import opened Wrappers

  datatype State = S | Q | P | R

  datatype EventKind = A | B | C

  /** A registered transition; `recognizes` marks the ones carrying the Recognized handler. */
  datatype Transition = Transition(name: string, source: State, event: EventKind, target: State, recognizes: bool)

  /** State.getName(): the name each state is created with. */
  function Name(s: State): (r: string)
    ensures |r| == 1
    ensures (r == "S" <==> s == S) && (r == "Q" <==> s == Q) && (r == "P" <==> s == P) && (r == "R" <==> s == R)
  {
    match s
    case S => "S"
    case Q => "Q"
    case P => "P"
    case R => "R"
  }

  const States: set<State> := {S, Q, P, R}
  const Initial: State := S
  const Finals: set<State> := {R}

  /** The six transitions, in the order the constructor registers them. */
  const Transitions: seq<Transition> := [
    Transition(NameSQ, S, B, Q, false),
    Transition(NameQP, Q, A, P, false),
    Transition(NamePP, P, A, P, false),
    Transition(NamePQ, P, B, Q, false),
    Transition(NameQRb, Q, B, R, true),
    Transition(NameQRc, Q, C, R, true)
  ]

  /** The names the constructor gives the transitions. */
  const NameSQ: string := "S to Q with b"
  const NameQP: string := "Q to P with a"
  const NamePP: string := "P to P with a"
  const NamePQ: string := "P to Q with b"
  const NameQRb: string := "Q to R with b"
  const NameQRc: string := "Q to R with c"

  /** The transition table: (source state, event kind) to target state. */
  const Table: map<(State, EventKind), State> := map[
    (S, B) := Q,
    (Q, A) := P,
    (P, A) := P,
    (P, B) := Q,
    (Q, B) := R,
    (Q, C) := R
  ]

  /** The i-th registered transition is keyed by (s, e). */
  predicate KeyedAt(i: int, s: State, e: EventKind) {
    0 <= i < |Transitions| && Transitions[i].source == s && Transitions[i].event == e
  }

  /** The registered transitions and the table describe the same machine, one transition per key. */
  lemma TransitionsAgreeWithTable()
    ensures |Transitions| == |Table| == 6
    ensures forall i, j :: 0 <= j < |Transitions| && KeyedAt(i, Transitions[j].source, Transitions[j].event) ==> i == j
    ensures forall i :: 0 <= i < |Transitions| ==>
      (Transitions[i].source, Transitions[i].event) in Table &&
      Table[(Transitions[i].source, Transitions[i].event)] == Transitions[i].target
    ensures forall s, e :: (s, e) in Table ==> exists i :: KeyedAt(i, s, e)
  {
    TableKeys();
    KeysUnique();
    TableCovered();
  }

  lemma TableKeys()
    ensures Table.Keys == {(S, B), (Q, A), (P, A), (P, B), (Q, B), (Q, C)}
    ensures |Table| == 6
  {
    assert Table.Keys == {(S, B), (Q, A), (P, A), (P, B), (Q, B), (Q, C)};
  }

  /** No two registered transitions share a (source, event) key. */
  lemma KeysUnique()
    ensures forall i, j :: 0 <= j < |Transitions| && KeyedAt(i, Transitions[j].source, Transitions[j].event) ==> i == j
  {
    forall i, j | 0 <= j < |Transitions| && KeyedAt(i, Transitions[j].source, Transitions[j].event)
      ensures i == j
    {
      var key := (Transitions[j].source, Transitions[j].event);
      assert key == (Transitions[i].source, Transitions[i].event);
    }
  }

  /** Every key of the table belongs to a registered transition. */
  lemma TableCovered()
    ensures forall s, e :: (s, e) in Table ==> exists i :: KeyedAt(i, s, e)
  {
    TableKeys();
    forall s, e | (s, e) in Table ensures exists i :: KeyedAt(i, s, e) {
      if (s, e) == (S, B) { assert KeyedAt(0, s, e); }
      else if (s, e) == (Q, A) { assert KeyedAt(1, s, e); }
      else if (s, e) == (P, A) { assert KeyedAt(2, s, e); }
      else if (s, e) == (P, B) { assert KeyedAt(3, s, e); }
      else if (s, e) == (Q, B) { assert KeyedAt(4, s, e); }
      else { assert KeyedAt(5, s, e); }
    }
  }

  /** Only the two transitions into the final state carry the Recognized handler. */
  lemma RecognizedOnlyIntoFinal()
    ensures forall i :: 0 <= i < |Transitions| ==>
      (Transitions[i].recognizes <==> Transitions[i].source == Q && Transitions[i].target in Finals)
  {
  }

  /** No transition leaves the final state, and from S only B has one. */
  lemma TableEdges(e: EventKind)
    ensures (R, e) !in Table
    ensures (S, e) in Table <==> e == B
    ensures (Q, e) in Table && (e == B || e == C) ==> Table[(Q, e)] == R
  {
  }

  /** The first transition of ts keyed by (s, e). */
  function FindIn(ts: seq<Transition>, s: State, e: EventKind): (r: Option<Transition>)
    ensures r.Some? ==> r.value in ts && r.value.source == s && r.value.event == e
    ensures r.None? ==> forall t :: t in ts ==> !(t.source == s && t.event == e)
  {
    if ts == [] then None
    else if ts[0].source == s && ts[0].event == e then Some(ts[0])
    else FindIn(ts[1..], s, e)
  }

  /** The transition FindIn returns is the first of ts with its key. */
  lemma {:induction false} FindInFirst(ts: seq<Transition>, s: State, e: EventKind)
    ensures FindIn(ts, s, e).Some? ==>
      exists i :: 0 <= i < |ts| && ts[i] == FindIn(ts, s, e).value && (forall j :: 0 <= j < i ==> !(ts[j].source == s && ts[j].event == e))
  {
    if ts != [] && FindIn(ts, s, e).Some? {
      if ts[0].source == s && ts[0].event == e {
        assert ts[0] == FindIn(ts, s, e).value;
      } else {
        FindInFirst(ts[1..], s, e);
        var i :| 0 <= i < |ts[1..]| && ts[1..][i] == FindIn(ts[1..], s, e).value
          && (forall j :: 0 <= j < i ==> !(ts[1..][j].source == s && ts[1..][j].event == e));
        forall j | 0 <= j < i + 1
          ensures !(ts[j].source == s && ts[j].event == e)
        {
          if j > 0 { assert ts[j] == ts[1..][j - 1]; }
        }
        assert ts[i + 1] == FindIn(ts, s, e).value;
      }
    }
  }

  /** The registered transition that fires from s on e, if any, as the library looks it up. */
  function TransitionFor(s: State, e: EventKind): (r: Option<Transition>)
    ensures r.Some? <==> (s, e) in Table
    ensures r.Some? ==> r.value in Transitions && r.value.source == s && r.value.event == e
    ensures r.Some? ==> r.value.target == Table[(s, e)]
  {
    TransitionsAgreeWithTable();
    FindIn(Transitions, s, e)
  }

  /** One step of the table. */
  function Step(q: State, e: EventKind): Option<State> {
    if (q, e) in Table then Some(Table[(q, e)]) else None
  }

  /** The state reached from q by consuming w, or None when some step has no transition. */
  function Run(q: State, w: seq<EventKind>): Option<State>
    decreases |w|
  {
    if w == [] then Some(q)
    else match Step(q, w[0])
      case None => None
      case Some(q') => Run(q', w[1..])
  }

  /** Running w then e is running w and taking one more step. */
  lemma {:induction false} RunSnoc(q: State, w: seq<EventKind>, e: EventKind)
    ensures Run(q, w + [e]) == match Run(q, w) case None => None case Some(q') => Step(q', e)
    decreases |w|
  {
    if w == [] {
      assert [] + [e] == [e];
      assert [e][1..] == [];
    } else {
      assert (w + [e])[0] == w[0];
      assert (w + [e])[1..] == w[1..] + [e];
      match Step(q, w[0])
      case None =>
      case Some(q') => RunSnoc(q', w[1..], e);
    }
  }

  /** w is empty or a block sequence of (a+b)*: only a and b, starts with a, ends with b, no two b in a row. */
  predicate Blocks(m: seq<EventKind>) {
    && (forall i :: 0 <= i < |m| ==> m[i] != C)
    && (m != [] ==> m[0] == A && m[|m| - 1] == B)
    && (forall i :: 0 <= i < |m| - 1 ==> !(m[i] == B && m[i + 1] == B))
  }

  /** The regular language b(a+b)*(b|c) over the event kinds. */
  predicate InLanguage(w: seq<EventKind>) {
    |w| >= 2 && w[0] == B && w[|w| - 1] != A && Blocks(w[1..|w| - 1])
  }

  lemma BlocksAfterA(x: seq<EventKind>)
    ensures Blocks([A, A] + x) <==> Blocks([A] + x)
  {
    var l, m := [A, A] + x, [A] + x;
    assert forall i :: 1 <= i < |l| ==> l[i] == m[i - 1];
    if Blocks(m) {
      forall i | 0 <= i < |l| - 1 ensures !(l[i] == B && l[i + 1] == B) {
        if i > 0 { assert l[i] == m[i - 1] && l[i + 1] == m[i]; }
      }
    }
    if Blocks(l) {
      assert forall i :: 0 <= i < |m| ==> m[i] == l[i + 1];
      assert m[|m| - 1] == l[|l| - 1];
      forall i | 0 <= i < |m| - 1 ensures !(m[i] == B && m[i + 1] == B) {
        assert l[i + 1] == m[i] && l[i + 2] == m[i + 1];
      }
    }
  }

  lemma BlocksAfterAB(y: seq<EventKind>)
    ensures Blocks([A, B] + y) <==> Blocks(y)
  {
    var l := [A, B] + y;
    assert forall i :: 2 <= i < |l| ==> l[i] == y[i - 2];
    if Blocks(y) {
      forall i | 0 <= i < |l| - 1 ensures !(l[i] == B && l[i + 1] == B) {
        if i > 1 { assert l[i] == y[i - 2] && l[i + 1] == y[i - 1]; }
        else if i == 1 && y != [] { assert l[i + 1] == y[0]; }
      }
    }
    if Blocks(l) {
      assert forall i :: 0 <= i < |y| ==> y[i] == l[i + 2];
      if y != [] {
        assert y[|y| - 1] == l[|l| - 1];
        assert l[2] == y[0];
        assert !(l[1] == B && l[2] == B);
      }
      forall i | 0 <= i < |y| - 1 ensures !(y[i] == B && y[i + 1] == B) {
        assert l[i + 2] == y[i] && l[i + 3] == y[i + 1];
      }
    }
  }

  /** From Q the final state is reached exactly on (a+b)* followed by b or c. */
  lemma {:induction false} RunFromQ(w: seq<EventKind>)
    ensures Run(Q, w) == Some(R) <==> |w| >= 1 && w[|w| - 1] != A && Blocks(w[..|w| - 1])
    decreases |w|, 1
  {
    if w != [] {
      if w[0] == A {
        RunFromP(w[1..]);
        if |w| >= 2 {
          assert [A] + w[1..][..|w[1..]| - 1] == w[..|w| - 1];
        }
      } else {
        assert Run(Q, w) == Run(R, w[1..]);
        if |w| > 1 {
          assert w[..|w| - 1][0] == w[0];
        }
      }
    }
  }

  /** From P the final state is reached exactly when a w prefixed by a is (a+b)* followed by b or c. */
  lemma {:induction false} RunFromP(w: seq<EventKind>)
    ensures Run(P, w) == Some(R) <==> |w| >= 1 && w[|w| - 1] != A && Blocks([A] + w[..|w| - 1])
    decreases |w|, 0
  {
    if w != [] {
      var x := w[1..];
      if w[0] == A {
        RunFromP(x);
        if |w| >= 2 {
          assert [A] + w[..|w| - 1] == [A, A] + x[..|x| - 1];
          assert [A] + x[..|x| - 1] == [A] + x[..|x| - 1];
          BlocksAfterA(x[..|x| - 1]);
        } else {
          assert [A] + w[..|w| - 1] == [A];
        }
      } else if w[0] == B {
        RunFromQ(x);
        if |w| >= 2 {
          assert [A] + w[..|w| - 1] == [A, B] + x[..|x| - 1];
          BlocksAfterAB(x[..|x| - 1]);
        } else {
          assert [A] + w[..|w| - 1] == [A];
        }
      } else {
        assert Run(P, w) == None;
        if |w| >= 2 {
          assert ([A] + w[..|w| - 1])[1] == C;
        }
      }
    }
  }

  /** The machine reaches its final state from S exactly on the words of b(a+b)*(b|c). */
  lemma {:induction false} RecognizedLanguage(w: seq<EventKind>)
    ensures Run(Initial, w) == Some(R) <==> InLanguage(w)
  {
    if w != [] {
      if w[0] == B {
        var x := w[1..];
        RunFromQ(x);
        if |w| >= 2 {
          assert x[..|x| - 1] == w[1..|w| - 1];
        }
      }
    }
  }
}
