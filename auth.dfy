/**
 * The client's authentication state machine: the reducer behind the auth
 * context, its initial state and the derived `isAuthed` flag. The stored
 * token is read as a string (a missing one reads as "").
 */
module Auth {

  datatype Status = Idle | Authed | Guest

  datatype AuthState = AuthState(token: string, status: Status)

  /** The dispatched actions; `Other` is any action whose type is none of RESTORE, SET_TOKEN and LOGOUT. */
  datatype Action = Restore(token: string) | SetToken(token: string) | Logout | Other

  const Initial: AuthState := AuthState("", Idle)

  predicate Known(a: Action)
  {
    !a.Other?
  }

  /** `reducer(state, action)`. */
  function Reduce(s: AuthState, a: Action): (r: AuthState)
    ensures (a.Restore? || a.SetToken?) ==> r.token == a.token
    ensures a.Restore? ==> (r.status == Authed <==> a.token != "") && (r.status == Guest <==> a.token == "")
    ensures a.SetToken? ==> r.status == Authed
    ensures a.Logout? ==> r.token == "" && r.status == Guest
    ensures a.Other? ==> r == s
  {
    match a
    case Restore(token) => if token != "" then AuthState(token, Authed) else AuthState("", Guest)
    case SetToken(token) => AuthState(token, Authed)
    case Logout => AuthState("", Guest)
    case Other => s
  }

  /** `isAuthed: !!state.token`. */
  function IsAuthed(s: AuthState): bool
  {
    s.token != ""
  }

  /** The state after dispatching `actions` in order. */
  function Run(s: AuthState, actions: seq<Action>): AuthState
    decreases |actions|
  {
    if actions == [] then s else Run(Reduce(s, actions[0]), actions[1..])
  }

  /** Logging out twice is logging out once, from any state. */
  lemma LogoutIdempotent(s: AuthState)
    ensures Reduce(Reduce(s, Logout), Logout) == Reduce(s, Logout)
    ensures Reduce(s, Logout) == AuthState("", Guest)
  {
  }

  /** After any known action the status is no longer idle. */
  lemma KnownLeavesIdle(s: AuthState, a: Action)
    requires Known(a)
    ensures Reduce(s, a).status != Idle
  {
  }

  /**
   * What holds of every state reachable from the initial one: an idle
   * state is the initial state, a guest has no token, and a non-empty
   * token means authed.
   */
  predicate Consistent(s: AuthState)
  {
    (s.status == Idle ==> s == Initial)
    && (s.status == Guest ==> s.token == "")
    && (IsAuthed(s) ==> s.status == Authed)
  }

  lemma ReducePreserves(s: AuthState, a: Action)
    requires Consistent(s)
    ensures Consistent(Reduce(s, a))
  {
  }

  lemma {:induction false} RunPreserves(s: AuthState, actions: seq<Action>)
    requires Consistent(s)
    ensures Consistent(Run(s, actions))
    decreases |actions|
  {
    if actions != [] {
      ReducePreserves(s, actions[0]);
      RunPreserves(Reduce(s, actions[0]), actions[1..]);
    }
  }

  /** Every state the provider can reach is consistent. */
  lemma ReachableConsistent(actions: seq<Action>)
    ensures Consistent(Run(Initial, actions))
  {
    RunPreserves(Initial, actions);
  }

  /**
   * A run ends idle exactly when it started idle and every action in it
   * was of an unknown type.
   */
  lemma {:induction false} RunIdle(s: AuthState, actions: seq<Action>)
    ensures Run(s, actions).status == Idle <==> s.status == Idle && forall i :: 0 <= i < |actions| ==> !Known(actions[i])
    decreases |actions|
  {
    if actions != [] {
      var s' := Reduce(s, actions[0]);
      RunIdle(s', actions[1..]);
      assert forall i :: 1 <= i < |actions| ==> actions[i] == actions[1..][i - 1];
      if Run(s, actions).status == Idle {
        assert s'.status == Idle;
        assert !Known(actions[0]);
      }
    }
  }

  /** From the initial state, the status stays idle only while no known action was dispatched. */
  lemma IdleUntilKnown(actions: seq<Action>)
    ensures Run(Initial, actions).status == Idle <==> forall i :: 0 <= i < |actions| ==> !Known(actions[i])
  {
    RunIdle(Initial, actions);
  }

  /**
   * `isAuthed` tracks the token, not the status: SET_TOKEN with an empty
   * token gives an authed status while `isAuthed` is false.
   */
  lemma AuthedWithoutToken()
    ensures var s := Reduce(Initial, SetToken(""));
      s.status == Authed && !IsAuthed(s)
  {
  }
}
