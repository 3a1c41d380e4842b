/** Calls of one context as words of brackets: the grammar of balanced words
    and the stack machine that recognizes them. */
module CallWords {
  import opened Wrappers

  /** A call's entry or exit; matching exits carry the same identity. */
  datatype Bracket<T> = Open(id: T) | Close(id: T)

  /** A balanced word is empty, or a balanced word between an opening and its
      closing bracket, followed by a balanced word. */
  ghost predicate Balanced<T(!new)>(w: seq<Bracket<T>>)
    decreases |w|
  {
    w == []
    || (w[0].Open? && exists k :: Encloses(w, k))
  }

  ghost predicate Encloses<T(!new)>(w: seq<Bracket<T>>, k: int)
    decreases |w|, 0
  {
    0 < k < |w| && w[0].Open? && w[k] == Close(w[0].id) && Balanced(w[1..k]) && Balanced(w[k + 1..])
  }

  /** Pushes openings, pops on a matching closing, otherwise gets stuck. */
  function Machine<T(==)>(stack: seq<T>, w: seq<Bracket<T>>): Option<seq<T>>
    decreases |w|
  {
    if w == [] then Some(stack)
    else
      match w[0]
      case Open(x) => Machine(stack + [x], w[1..])
      case Close(x) =>
        if stack != [] && stack[|stack| - 1] == x then Machine(stack[..|stack| - 1], w[1..]) else None
  }

  /** One step of the machine. */
  function Read<T(==)>(s: seq<T>, b: Bracket<T>): Option<seq<T>> {
    if b.Open? then Some(s + [b.id])
    else if s != [] && s[|s| - 1] == b.id then Some(s[..|s| - 1])
    else None
  }

  lemma {:induction false} MachineOne<T>(s: seq<T>, b: Bracket<T>)
    ensures Machine(s, [b]) == Read(s, b)
  {
    assert [b][1..] == [];
  }

  lemma {:induction false} MachineConcat<T>(stack: seq<T>, u: seq<Bracket<T>>, v: seq<Bracket<T>>)
    ensures Machine(stack, u + v) == match Machine(stack, u) case None => None case Some(s) => Machine(s, v)
    decreases |u|
  {
    if u == [] {
      assert u + v == v;
    } else {
      assert (u + v)[1..] == u[1..] + v;
      match u[0]
      case Open(x) => MachineConcat(stack + [x], u[1..], v);
      case Close(x) =>
        if stack != [] && stack[|stack| - 1] == x {
          MachineConcat(stack[..|stack| - 1], u[1..], v);
        }
    }
  }

  lemma {:induction false} BalancedRuns<T(!new)>(stack: seq<T>, w: seq<Bracket<T>>)
    requires Balanced(w)
    ensures Machine(stack, w) == Some(stack)
    decreases |w|
  {
    if w != [] {
      var k :| Encloses(w, k);
      var inner, rest := w[1..k], w[k + 1..];
      assert w == [w[0]] + (inner + ([w[k]] + rest));
      assert ([w[0]] + (inner + ([w[k]] + rest)))[1..] == inner + ([w[k]] + rest);
      BalancedRuns(stack + [w[0].id], inner);
      MachineConcat(stack + [w[0].id], inner, [w[k]] + rest);
      assert ([w[k]] + rest)[1..] == rest && (stack + [w[0].id])[..|stack|] == stack;
      BalancedRuns(stack, rest);
    }
  }

  /** A run that empties the stack first removes what is above the bottom. */
  lemma {:induction false} Descend<T(!new)>(a: T, t: seq<T>, w: seq<Bracket<T>>) returns (k: nat)
    requires Machine([a] + t, w) == Some([])
    ensures k < |w| && w[k] == Close(a) && Machine(t, w[..k]) == Some([]) && Machine([], w[k + 1..]) == Some([])
    decreases |w|
  {
    var s := [a] + t;
    match w[0]
    case Open(x) =>
      assert s + [x] == [a] + (t + [x]);
      k := Descend(a, t + [x], w[1..]);
      assert w[..k + 1][1..] == w[1..][..k] && w[1..][k + 1..] == w[k + 2..];
      k := k + 1;
    case Close(x) =>
      if t == [] {
        k := 0;
        assert s[..0] == [];
      } else {
        assert s[..|s| - 1] == [a] + t[..|t| - 1];
        k := Descend(a, t[..|t| - 1], w[1..]);
        assert w[..k + 1][1..] == w[1..][..k] && w[1..][k + 1..] == w[k + 2..];
        k := k + 1;
      }
  }

  lemma {:induction false} RunsBalanced<T(!new)>(w: seq<Bracket<T>>)
    requires Machine([], w) == Some([])
    ensures Balanced(w)
    decreases |w|
  {
    if w != [] {
      assert [] + [w[0].id] == [w[0].id] + [];
      var k := Descend(w[0].id, [], w[1..]);
      assert w[1..][..k] == w[1..k + 1] && w[1..][k + 1..] == w[k + 2..];
      RunsBalanced(w[1..k + 1]);
      RunsBalanced(w[k + 2..]);
      assert Encloses(w, k + 1);
    }
  }

  /** The machine empties its stack exactly on the balanced words. */
  lemma {:induction false} MachineDecidesBalance<T(!new)>(w: seq<Bracket<T>>)
    ensures Balanced(w) <==> Machine([], w) == Some([])
  {
    if Balanced(w) {
      BalancedRuns([], w);
    }
    if Machine([], w) == Some([]) {
      RunsBalanced(w);
    }
  }
}
