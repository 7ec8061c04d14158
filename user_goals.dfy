/** The priority numbering in `update_user_goals` (users/profile_views.py):
    the submitted goals become goal records for the requesting user, numbered
    1, 2, ... in the order they were submitted. The ORM calls around it (the
    delete of the old goals, the bulk insert, the transaction) are not part of
    this model. */
module UserGoals {

  /** The primary key of the requesting user. */
  type UserId = nat

  /** One `UserGoal` row before it is saved. */
  datatype UserGoal = UserGoal(user: UserId, goal: string, priority: nat)

  /** `records` are `goals`, in order, for `user`, the i-th (from 0) carrying
      priority i + 1. */
  ghost predicate NumberedInOrder(user: UserId, goals: seq<string>, records: seq<UserGoal>) {
    |records| == |goals|
    && forall i :: 0 <= i < |records| ==>
         records[i].user == user && records[i].goal == goals[i] && records[i].priority == i + 1
  }

  function Priorities(records: seq<UserGoal>): set<nat> {
    set r | r in records :: r.priority
  }

  /** The loop `for i, goal in enumerate(goals_data, 1): new_goals.append(...)`. */
  method NumberGoals(user: UserId, goals: seq<string>) returns (newGoals: seq<UserGoal>)
    ensures NumberedInOrder(user, goals, newGoals)
  {
    newGoals := [];
    var i := 1;
    while i <= |goals|
      invariant 1 <= i <= |goals| + 1
      invariant NumberedInOrder(user, goals[..i - 1], newGoals)
    {
      var goal := goals[i - 1];
      newGoals := newGoals + [UserGoal(user, goal, i)];
      i := i + 1;
    }
    assert goals[..i - 1] == goals;
  }

  /** Numbered goals carry exactly the priorities 1..n, each once, rising
      along the list, and give back the submitted goals in their order. */
  lemma PrioritiesAreOneToN(user: UserId, goals: seq<string>, records: seq<UserGoal>)
    requires NumberedInOrder(user, goals, records)
    ensures forall p :: p in Priorities(records) <==> 1 <= p <= |goals|
    ensures forall i, j :: 0 <= i < j < |records| ==> records[i].priority < records[j].priority
    ensures seq(|records|, i requires 0 <= i < |records| => records[i].goal) == goals
  {
    var priorities := Priorities(records);
    forall k | 1 <= k <= |goals| ensures k in priorities {
      assert records[k - 1] in records;
    }
    forall p | p in priorities ensures 1 <= p <= |goals| {
      var r :| r in records && r.priority == p;
      var i :| 0 <= i < |records| && records[i] == r;
    }
  }
}
