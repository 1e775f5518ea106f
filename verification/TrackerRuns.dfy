/** Runs of the tracker: any sequence of commands from the empty state. */
module TrackerRuns {
  import opened Text
  import opened TrackerModel
  import opened TrackerLaws
  import opened TrackerEffects

  /** The state before command number `n` of a run. */
  ghost function StateAt(p: Primitives, inputs: seq<Input>, n: nat): Tracker
    requires n <= |inputs|
  {
    if n == 0 then EMPTY else After(p, StateAt(p, inputs, n - 1), inputs[n - 1])
  }

  lemma {:induction false} RunInv(p: Primitives, inputs: seq<Input>, n: nat)
    requires n <= |inputs|
    ensures Inv(StateAt(p, inputs, n))
  {
    if n > 0 {
      RunInv(p, inputs, n - 1);
      var input := inputs[n - 1];
      ApplyKeepsInv(p, StateAt(p, inputs, n - 1), input.session, input.line, input.context);
    }
  }

  /** While a file stays listed its metadata is what the first upload fixed. */
  lemma {:induction false} MetadataFixed(p: Primitives, inputs: seq<Input>, m: nat, n: nat, group: Bytes, file: Bytes)
    requires m <= n <= |inputs|
    requires forall i | m <= i <= n ::
             var t := StateAt(p, inputs, i); group in t.groups && file in t.groups[group].files
    ensures StateAt(p, inputs, n).groups[group].files[file].metadata ==
            StateAt(p, inputs, m).groups[group].files[file].metadata
  {
    hide Apply, Inv, Issues;
    if m < n {
      MetadataFixed(p, inputs, m, n - 1, group, file);
      var t, input := StateAt(p, inputs, n - 1), inputs[n - 1];
      RunInv(p, inputs, n - 1);
      ApplyEvolves(p, t, input.session, input.line, input.context);
      assert GroupEvolves(t.groups[group], After(p, t, input).groups[group]);
    }
  }

  // ---------------------------------------------------------------- who is a member, and why

  /** A waiting user asked to join, and has been waiting ever since. */
  lemma {:induction false} PendingHistory(p: Primitives, inputs: seq<Input>, n: nat, group: Bytes, user: Bytes)
    returns (asked: nat)
    requires n <= |inputs| && IsPending(StateAt(p, inputs, n), group, user)
    ensures asked < n && Issues(StateAt(p, inputs, asked), inputs[asked], user, JoinGroup, [group])
    ensures forall i | asked < i <= n :: IsPending(StateAt(p, inputs, i), group, user)
  {
    hide Apply, Inv, Issues;
    var t := StateAt(p, inputs, n - 1);
    if IsPending(t, group, user) {
      asked := PendingHistory(p, inputs, n - 1, group, user);
    } else {
      RunInv(p, inputs, n - 1);
      MembershipExact(p, t, inputs[n - 1], group, user);
      asked := n - 1;
    }
  }

  /** A member other than the owner asked to join, waited until the owner accepted, and has been
      a member in every state since, so no leave or removal of theirs has succeeded since. */
  lemma {:induction false} MembershipHistory(p: Primitives, inputs: seq<Input>, n: nat, group: Bytes, user: Bytes)
    returns (asked: nat, accepted: nat)
    requires n <= |inputs| && IsMember(StateAt(p, inputs, n), group, user)
    requires user != StateAt(p, inputs, n).groups[group].owner
    ensures asked < accepted < n
    ensures Issues(StateAt(p, inputs, asked), inputs[asked], user, JoinGroup, [group])
    ensures forall i | asked < i <= accepted :: IsPending(StateAt(p, inputs, i), group, user)
    ensures Issues(StateAt(p, inputs, accepted), inputs[accepted], StateAt(p, inputs, n).groups[group].owner,
            AcceptRequest, [group, user])
    ensures forall i | accepted < i <= n :: IsMember(StateAt(p, inputs, i), group, user)
  {
    hide Apply, Inv, Issues;
    var t, input := StateAt(p, inputs, n - 1), inputs[n - 1];
    RunInv(p, inputs, n - 1);
    ApplyEvolves(p, t, input.session, input.line, input.context);
    MembershipExact(p, t, input, group, user);
    assert group in t.groups ==> GroupEvolves(t.groups[group], After(p, t, input).groups[group]);
    if IsMember(t, group, user) {
      asked, accepted := MembershipHistory(p, inputs, n - 1, group, user);
    } else {
      accepted := n - 1;
      asked := PendingHistory(p, inputs, n - 1, group, user);
    }
  }

  /** The other direction: membership lost between two states was lost by the user's own
      leave_group or by the owner's remove_member. */
  lemma {:induction false} DepartureHistory(p: Primitives, inputs: seq<Input>, m: nat, n: nat, group: Bytes,
                                            user: Bytes)
    returns (left: nat)
    requires m <= n <= |inputs|
    requires IsMember(StateAt(p, inputs, m), group, user) && !IsMember(StateAt(p, inputs, n), group, user)
    ensures m <= left < n && IsMember(StateAt(p, inputs, left), group, user)
    ensures Issues(StateAt(p, inputs, left), inputs[left], user, LeaveGroup, [group]) ||
            Issues(StateAt(p, inputs, left), inputs[left], StateAt(p, inputs, m).groups[group].owner, RemoveMember,
              [group, user])
    ensures forall i | left < i <= n :: !IsMember(StateAt(p, inputs, i), group, user)
  {
    hide Apply, Inv, Issues;
    var t := StateAt(p, inputs, n - 1);
    if IsMember(t, group, user) {
      RunInv(p, inputs, n - 1);
      MembershipExact(p, t, inputs[n - 1], group, user);
      OwnerFixed(p, inputs, m, n - 1, group);
      left := n - 1;
    } else {
      left := DepartureHistory(p, inputs, m, n - 1, group, user);
    }
  }

  lemma {:induction false} OwnerFixed(p: Primitives, inputs: seq<Input>, m: nat, n: nat, group: Bytes)
    requires m <= n <= |inputs| && group in StateAt(p, inputs, m).groups
    ensures group in StateAt(p, inputs, n).groups
    ensures StateAt(p, inputs, n).groups[group].owner == StateAt(p, inputs, m).groups[group].owner
  {
    hide Apply, Inv, Issues;
    if m < n {
      OwnerFixed(p, inputs, m, n - 1, group);
      var t, input := StateAt(p, inputs, n - 1), inputs[n - 1];
      RunInv(p, inputs, n - 1);
      ApplyEvolves(p, t, input.session, input.line, input.context);
      assert GroupEvolves(t.groups[group], After(p, t, input).groups[group]);
    }
  }

  /** Nobody re-enters a group unless the owner accepts a request of theirs. */
  lemma {:induction false} StaysOut(p: Primitives, inputs: seq<Input>, m: nat, n: nat, group: Bytes, user: Bytes)
    requires m <= n <= |inputs| && group in StateAt(p, inputs, m).groups &&
             !IsMember(StateAt(p, inputs, m), group, user)
    requires forall i | m <= i < n ::
               !Issues(StateAt(p, inputs, i), inputs[i], StateAt(p, inputs, m).groups[group].owner, AcceptRequest,
                 [group, user])
    ensures !IsMember(StateAt(p, inputs, n), group, user)
  {
    hide Apply, Inv, Issues;
    if m < n {
      StaysOut(p, inputs, m, n - 1, group, user);
      RunInv(p, inputs, n - 1);
      OwnerFixed(p, inputs, m, n - 1, group);
      MembershipExact(p, StateAt(p, inputs, n - 1), inputs[n - 1], group, user);
    }
  }
}
