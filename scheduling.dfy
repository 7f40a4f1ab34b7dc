/**
 * The greedy teacher-to-subject assignment of `create_schedule` (Task2.py).
 *
 * Teachers are identified by their position in the input list; the schedule
 * holds one subject set per teacher, at the same position. The scheduler only
 * looks at a teacher's age and at the subjects the teacher can teach.
 */
module Scheduling {
  import opened Wrappers

  /** A teacher as the scheduler sees it: `age` and `can_teach_subjects`. */
  datatype Teacher<S> = Teacher(age: int, canTeach: set<S>)

  /** What one round of the outer loop works on: the subjects given to each
      teacher so far (by position) and the subjects not yet assigned. */
  datatype State<S> = State(schedule: seq<set<S>>, unassigned: set<S>)

  /** `set(subjects)` */
  function Elements<S>(subjects: seq<S>): set<S>
  {
    set s | s in subjects
  }

  /** The subjects `t` could still take: `can_teach_subjects ∩ unassigned`. */
  function Coverage<S>(t: Teacher<S>, unassigned: set<S>): set<S>
  {
    t.canTeach * unassigned
  }

  /** `num_uncovered_subjects` */
  function Count<S>(t: Teacher<S>, unassigned: set<S>): nat
  {
    |Coverage(t, unassigned)|
  }

  /** Every subject in `unassigned` is taught by at least one teacher. */
  ghost predicate Coverable<S>(unassigned: set<S>, teachers: seq<Teacher<S>>)
  {
    forall s :: s in unassigned ==> exists j :: 0 <= j < |teachers| && s in teachers[j].canTeach
  }

  // ---------------------------------------------------------------------------
  // Choosing the best teacher
  // ---------------------------------------------------------------------------

  /** The selection rule, stated on its own: among the first `n` teachers, `b`
      has the largest count; among those with that count it is the youngest;
      and every earlier teacher with that count is strictly older. */
  ghost predicate IsBestAmong<S>(teachers: seq<Teacher<S>>, unassigned: set<S>, n: nat, b: nat)
    requires n <= |teachers|
  {
    && b < n
    && (forall j :: 0 <= j < n ==> Count(teachers[j], unassigned) <= Count(teachers[b], unassigned))
    && (forall j :: 0 <= j < n && Count(teachers[j], unassigned) == Count(teachers[b], unassigned) ==>
          teachers[b].age <= teachers[j].age)
    && (forall j :: 0 <= j < b && Count(teachers[j], unassigned) == Count(teachers[b], unassigned) ==>
          teachers[b].age < teachers[j].age)
  }

  /** The three variables of the inner scan: `best_teacher`,
      `max_uncovered_subjects` and `youngest_age`, where `None` stands for
      the initial `float('inf')`. */
  datatype Pick = Pick(best: Option<nat>, maxCount: int, youngest: Option<int>)

  /** `teacher.age < youngest_age`, with `None` as infinity. */
  predicate Younger(age: int, youngest: Option<int>)
  {
    youngest.None? || age < youngest.value
  }

  /** One pass of the inner loop body, for the teacher at position `i`. */
  function ScanStep<S>(p: Pick, i: nat, t: Teacher<S>, unassigned: set<S>): Pick
  {
    var n := Count(t, unassigned);
    if n > p.maxCount then Pick(Some(i), n, Some(t.age))
    else if n == p.maxCount && Younger(t.age, p.youngest) then Pick(Some(i), p.maxCount, Some(t.age))
    else p
  }

  /** The scan state after the first `n` teachers. */
  function Scan<S>(teachers: seq<Teacher<S>>, unassigned: set<S>, n: nat): Pick
    requires n <= |teachers|
  {
    if n == 0 then Pick(None, -1, None)
    else ScanStep(Scan(teachers, unassigned, n - 1), n - 1, teachers[n - 1], unassigned)
  }

  /** The running scan, which only ever compares with the best so far, picks
      exactly the teacher the selection rule describes. */
  lemma {:induction false} ScanFindsBest<S>(teachers: seq<Teacher<S>>, unassigned: set<S>, n: nat)
    requires n <= |teachers|
    ensures n == 0 ==> Scan(teachers, unassigned, n).best.None?
    ensures n > 0 ==>
      var p := Scan(teachers, unassigned, n);
      && p.best.Some?
      && IsBestAmong(teachers, unassigned, n, p.best.value)
      && p.maxCount == Count(teachers[p.best.value], unassigned)
      && p.youngest == Some(teachers[p.best.value].age)
  {
    if n > 1 {
      ScanFindsBest(teachers, unassigned, n - 1);
      var b := Scan(teachers, unassigned, n - 1).best.value;
      var c := Count(teachers[n - 1], unassigned);
      var cb := Count(teachers[b], unassigned);
      if c > cb {
        assert IsBestAmong(teachers, unassigned, n, n - 1);
      } else if c == cb && teachers[n - 1].age < teachers[b].age {
        assert IsBestAmong(teachers, unassigned, n, n - 1);
      } else {
        assert IsBestAmong(teachers, unassigned, n, b);
      }
    }
  }

  /** The selection rule picks at most one teacher. */
  lemma BestIsUnique<S>(teachers: seq<Teacher<S>>, unassigned: set<S>, b1: nat, b2: nat)
    requires IsBestAmong(teachers, unassigned, |teachers|, b1)
    requires IsBestAmong(teachers, unassigned, |teachers|, b2)
    ensures b1 == b2
  {
    var c1, c2 := Count(teachers[b1], unassigned), Count(teachers[b2], unassigned);
    assert c1 <= c2 && c2 <= c1;
    assert teachers[b1].age == teachers[b2].age;
    assert !(b1 < b2);
    assert !(b2 < b1);
  }

  /** The teacher chosen in one round (Task2.py:30-49); there is none only
      when the teacher list is empty. */
  function SelectBest<S>(teachers: seq<Teacher<S>>, unassigned: set<S>): (r: Option<nat>)
    ensures r.None? <==> teachers == []
    ensures r.Some? ==> r.value < |teachers|
  {
    ScanFindsBest(teachers, unassigned, |teachers|);
    Scan(teachers, unassigned, |teachers|).best
  }

  /** The chosen teacher is the one the selection rule describes. */
  lemma SelectBestFollowsRule<S>(teachers: seq<Teacher<S>>, unassigned: set<S>)
    requires teachers != []
    ensures SelectBest(teachers, unassigned).Some?
    ensures IsBestAmong(teachers, unassigned, |teachers|, SelectBest(teachers, unassigned).value)
  {
    ScanFindsBest(teachers, unassigned, |teachers|);
  }

  /** The inner `for` loop of `create_schedule`, with the scan variables
      updated step by step. */
  method FindBestTeacher<S>(teachers: seq<Teacher<S>>, unassigned: set<S>) returns (best: Option<nat>)
    ensures best == SelectBest(teachers, unassigned)
  {
    best := None;
    var maxUncovered := -1;
    var youngestAge: Option<int> := None;
    for i := 0 to |teachers|
      invariant Pick(best, maxUncovered, youngestAge) == Scan(teachers, unassigned, i)
    {
      var teacher := teachers[i];
      var numUncovered := |teacher.canTeach * unassigned|;
      if numUncovered > maxUncovered {
        maxUncovered := numUncovered;
        best := Some(i);
        youngestAge := Some(teacher.age);
      } else if numUncovered == maxUncovered && (youngestAge.None? || teacher.age < youngestAge.value) {
        best := Some(i);
        youngestAge := Some(teacher.age);
      }
    }
    ScanFindsBest(teachers, unassigned, |teachers|);
  }

  // ---------------------------------------------------------------------------
  // One round and the outer loop
  // ---------------------------------------------------------------------------

  /** The assignment step (Task2.py:57-59): teacher `b` receives its whole
      coverage, which leaves the unassigned set. */
  function Assign<S>(teachers: seq<Teacher<S>>, st: State<S>, b: nat): (r: State<S>)
    requires |st.schedule| == |teachers| && b < |teachers|
    ensures |r.schedule| == |teachers|
    ensures r.unassigned == st.unassigned - Coverage(teachers[b], st.unassigned)
    ensures r.schedule[b] == st.schedule[b] + (st.unassigned - r.unassigned)
    ensures forall i :: 0 <= i < |teachers| && i != b ==> r.schedule[i] == st.schedule[i]
  {
    var taken := Coverage(teachers[b], st.unassigned);
    State(st.schedule[b := st.schedule[b] + taken], st.unassigned - taken)
  }

  /** The outer `while` loop run for at most `fuel` rounds; it stops early
      when nothing is left, and returns at once when no teacher was found. */
  function Run<S>(teachers: seq<Teacher<S>>, st: State<S>, fuel: nat): (r: State<S>)
    requires |st.schedule| == |teachers|
    ensures |r.schedule| == |teachers|
    ensures r.unassigned <= st.unassigned
    decreases fuel
  {
    if fuel == 0 || st.unassigned == {} then st
    else match SelectBest(teachers, st.unassigned)
      case None => st
      case Some(b) => Run(teachers, Assign(teachers, st, b), fuel - 1)
  }

  /** Every teacher starts with an empty list; every subject is unassigned. */
  function Initial<S>(subjects: seq<S>, teachers: seq<Teacher<S>>): State<S>
  {
    State(seq(|teachers|, _ => {}), Elements(subjects))
  }

  /** The schedule `create_schedule` returns, when it returns: the loop state
      after `|set(subjects)|` rounds, which is enough (RunFinishes). */
  ghost function GreedySchedule<S>(subjects: seq<S>, teachers: seq<Teacher<S>>): seq<set<S>>
  {
    Run(teachers, Initial(subjects, teachers), |Elements(subjects)|).schedule
  }

  /** What holds of the state between rounds, for the full subject set `all`:
      each list only holds subjects of `all` its teacher can teach and that
      are no longer unassigned; lists are pairwise disjoint; every assigned
      subject is in some list; a teacher that already received subjects can
      cover none of the remaining ones. */
  ghost predicate Consistent<S>(all: set<S>, teachers: seq<Teacher<S>>, st: State<S>)
  {
    && |st.schedule| == |teachers|
    && st.unassigned <= all
    && (forall i :: 0 <= i < |teachers| ==>
          st.schedule[i] <= teachers[i].canTeach * all && st.schedule[i] !! st.unassigned)
    && (forall i, j :: 0 <= i < j < |teachers| ==> st.schedule[i] !! st.schedule[j])
    && (forall s :: s in all && s !in st.unassigned ==>
          exists i :: 0 <= i < |teachers| && s in st.schedule[i])
    && (forall i :: 0 <= i < |teachers| && st.schedule[i] != {} ==>
          Coverage(teachers[i], st.unassigned) == {})
  }

  lemma InitialIsConsistent<S>(subjects: seq<S>, teachers: seq<Teacher<S>>)
    ensures Consistent(Elements(subjects), teachers, Initial(subjects, teachers))
  {
  }

  /** A round keeps the state consistent, whichever teacher it serves. */
  lemma AssignKeepsConsistent<S>(all: set<S>, teachers: seq<Teacher<S>>, st: State<S>, b: nat)
    requires Consistent(all, teachers, st) && b < |teachers|
    ensures Consistent(all, teachers, Assign(teachers, st, b))
  {
    AssignKeepsListsApart(all, teachers, st, b);
    AssignKeepsAccount(all, teachers, st, b);
    AssignRetiresServed(teachers, st, b);
  }

  /** After a round, lists still hold only teachable subjects of `all`, none
      of them open, and no two lists share a subject. */
  lemma AssignKeepsListsApart<S>(all: set<S>, teachers: seq<Teacher<S>>, st: State<S>, b: nat)
    requires Consistent(all, teachers, st) && b < |teachers|
    ensures var r := Assign(teachers, st, b);
      && (forall i :: 0 <= i < |teachers| ==>
            r.schedule[i] <= teachers[i].canTeach * all && r.schedule[i] !! r.unassigned)
      && (forall i, j :: 0 <= i < j < |teachers| ==> r.schedule[i] !! r.schedule[j])
  {
    var r := Assign(teachers, st, b);
    var taken := Coverage(teachers[b], st.unassigned);
    forall i | 0 <= i < |teachers|
      ensures r.schedule[i] <= teachers[i].canTeach * all && r.schedule[i] !! r.unassigned
    {
      if i == b {
        assert r.schedule[i] == st.schedule[i] + taken;
      } else {
        assert r.schedule[i] == st.schedule[i];
      }
    }
    forall i, j | 0 <= i < j < |teachers|
      ensures r.schedule[i] !! r.schedule[j]
    {
      assert st.schedule[i] !! st.schedule[j];
      if i == b {
        assert r.schedule[j] == st.schedule[j] && st.schedule[j] !! st.unassigned;
      } else if j == b {
        assert r.schedule[i] == st.schedule[i] && st.schedule[i] !! st.unassigned;
      } else {
        assert r.schedule[i] == st.schedule[i] && r.schedule[j] == st.schedule[j];
      }
    }
  }

  /** After a round, every subject of `all` that is no longer open is in some
      list. */
  lemma AssignKeepsAccount<S>(all: set<S>, teachers: seq<Teacher<S>>, st: State<S>, b: nat)
    requires |st.schedule| == |teachers| && b < |teachers|
    requires forall s :: s in all && s !in st.unassigned ==>
      exists i :: 0 <= i < |teachers| && s in st.schedule[i]
    ensures var r := Assign(teachers, st, b);
      forall s :: s in all && s !in r.unassigned ==>
        exists i :: 0 <= i < |teachers| && s in r.schedule[i]
  {
    var r := Assign(teachers, st, b);
    var taken := Coverage(teachers[b], st.unassigned);
    assert r.schedule[b] == st.schedule[b] + taken;
    forall s | s in all && s !in r.unassigned
      ensures exists i :: 0 <= i < |teachers| && s in r.schedule[i]
    {
      if s in st.unassigned {
        assert s in taken;
        assert s in r.schedule[b];
      } else {
        var i :| 0 <= i < |teachers| && s in st.schedule[i];
        assert s in r.schedule[i];
      }
    }
  }

  /** After a round, a teacher with a non-empty list can cover nothing still
      open: the winner took all it could, and the others had nothing to take. */
  lemma AssignRetiresServed<S>(teachers: seq<Teacher<S>>, st: State<S>, b: nat)
    requires |st.schedule| == |teachers| && b < |teachers|
    requires forall i :: 0 <= i < |teachers| && st.schedule[i] != {} ==>
      Coverage(teachers[i], st.unassigned) == {}
    ensures var r := Assign(teachers, st, b);
      forall i :: 0 <= i < |teachers| && r.schedule[i] != {} ==>
        Coverage(teachers[i], r.unassigned) == {}
  {
    var r := Assign(teachers, st, b);
    forall i | 0 <= i < |teachers| && r.schedule[i] != {}
      ensures Coverage(teachers[i], r.unassigned) == {}
    {
      if i != b {
        assert st.schedule[i] != {};
        assert Coverage(teachers[i], r.unassigned) <= Coverage(teachers[i], st.unassigned);
      }
    }
  }

  /** Any number of rounds keeps the state consistent, whether or not the
      subjects can all be covered. */
  // This lemma and the other inductions over `Run` below take the final state
  // as a parameter `r` and state their goal as an implication. The form is
  // equivalent to `requires P ensures Q(Run(...))`, and it keeps each step of
  // the proof within the verifier's resource budget.
  lemma {:induction false} RunKeepsConsistent<S>(all: set<S>, teachers: seq<Teacher<S>>, st: State<S>, fuel: nat, r: State<S>)
    requires |st.schedule| == |teachers| && r == Run(teachers, st, fuel)
    ensures Consistent(all, teachers, st) ==> Consistent(all, teachers, r)
    decreases fuel
  {
    if fuel == 0 || st.unassigned == {} || teachers == [] {
      RunStops(teachers, st, fuel);
    } else {
      var b := SelectBest(teachers, st.unassigned).value;
      var next := Assign(teachers, st, b);
      RunUnfolds(teachers, st, fuel);
      RunKeepsConsistent(all, teachers, next, fuel - 1, r);
      if Consistent(all, teachers, st) {
        AssignKeepsConsistent(all, teachers, st, b);
      }
    }
  }

  /** When every remaining subject has a teacher, the chosen teacher covers
      at least one of them, so the round makes progress. */
  lemma BestMakesProgress<S>(teachers: seq<Teacher<S>>, unassigned: set<S>, b: nat)
    requires unassigned != {} && Coverable(unassigned, teachers)
    requires IsBestAmong(teachers, unassigned, |teachers|, b)
    ensures Coverage(teachers[b], unassigned) != {}
  {
    var s :| s in unassigned;
    var j :| 0 <= j < |teachers| && s in teachers[j].canTeach;
    assert s in Coverage(teachers[j], unassigned);
    assert Count(teachers[b], unassigned) >= Count(teachers[j], unassigned) > 0;
  }

  /** Under full coverage a teacher is chosen at most once: the winner of a
      round had received nothing before, so its list becomes exactly its
      coverage (extending an empty list). */
  lemma WinnerChosenOnce<S>(all: set<S>, teachers: seq<Teacher<S>>, st: State<S>, b: nat)
    requires Consistent(all, teachers, st)
    requires st.unassigned != {} && Coverable(st.unassigned, teachers)
    requires IsBestAmong(teachers, st.unassigned, |teachers|, b)
    ensures st.schedule[b] == {}
    ensures Assign(teachers, st, b).schedule[b] == Coverage(teachers[b], st.unassigned)
  {
    BestMakesProgress(teachers, st.unassigned, b);
  }

  /** One more round of the loop, when there is something left to assign
      and a teacher to give it to. */
  lemma RunUnfolds<S>(teachers: seq<Teacher<S>>, st: State<S>, fuel: nat)
    requires |st.schedule| == |teachers| && teachers != []
    requires fuel > 0 && st.unassigned != {}
    ensures SelectBest(teachers, st.unassigned).Some?
    ensures Run(teachers, st, fuel) ==
      Run(teachers, Assign(teachers, st, SelectBest(teachers, st.unassigned).value), fuel - 1)
  {
  }

  /** Under full coverage a round strictly shrinks the unassigned set and
      keeps the rest coverable. */
  lemma RoundShrinks<S>(teachers: seq<Teacher<S>>, st: State<S>)
    requires |st.schedule| == |teachers| && teachers != []
    requires st.unassigned != {} && Coverable(st.unassigned, teachers)
    ensures SelectBest(teachers, st.unassigned).Some?
    ensures var next := Assign(teachers, st, SelectBest(teachers, st.unassigned).value);
      |next.unassigned| < |st.unassigned| && Coverable(next.unassigned, teachers)
  {
    var b := SelectBest(teachers, st.unassigned).value;
    SelectBestFollowsRule(teachers, st.unassigned);
    BestMakesProgress(teachers, st.unassigned, b);
    var next := Assign(teachers, st, b);
    var x :| x in Coverage(teachers[b], st.unassigned);
    SubsetCardinality(next.unassigned, st.unassigned - {x});
  }

  /** With full coverage, the loop ends within `|unassigned|` rounds: the
      state `r` reached after `fuel` rounds has nothing left to assign. */
  lemma {:induction false} RunFinishes<S>(teachers: seq<Teacher<S>>, st: State<S>, fuel: nat, r: State<S>)
    requires |st.schedule| == |teachers| && teachers != []
    requires r == Run(teachers, st, fuel)
    ensures Coverable(st.unassigned, teachers) && fuel >= |st.unassigned| ==> r.unassigned == {}
    decreases fuel
  {
    if fuel == 0 || st.unassigned == {} {
      RunStops(teachers, st, fuel);
    } else {
      var b := SelectBest(teachers, st.unassigned).value;
      var next := Assign(teachers, st, b);
      RunUnfolds(teachers, st, fuel);
      RunFinishes(teachers, next, fuel - 1, r);
      if Coverable(st.unassigned, teachers) {
        RoundShrinks(teachers, st);
      }
    }
  }

  /** The teachers that can still cover some unassigned subject. */
  ghost function Active<S>(teachers: seq<Teacher<S>>, unassigned: set<S>): set<nat>
  {
    set i: nat | i < |teachers| && Coverage(teachers[i], unassigned) != {}
  }

  lemma {:induction false} SubsetCardinality<T>(a: set<T>, b: set<T>)
    requires a <= b
    ensures |a| <= |b|
    decreases |a|
  {
    if a != {} {
      var x :| x in a;
      SubsetCardinality(a - {x}, b - {x});
    }
  }

  lemma {:induction false} ActiveBounded<S>(teachers: seq<Teacher<S>>, unassigned: set<S>)
    ensures |Active(teachers, unassigned)| <= |teachers|
    decreases |teachers|
  {
    if teachers != [] {
      var n := |teachers| - 1;
      var front := teachers[..n];
      ActiveBounded(front, unassigned);
      var earlier := Active(front, unassigned);
      assert Active(teachers, unassigned) <= earlier + {n} by {
        forall i | i in Active(teachers, unassigned) ensures i in earlier + {n} {
          if i < n { assert front[i] == teachers[i]; }
        }
      }
      SubsetCardinality(Active(teachers, unassigned), earlier + {n});
      assert n !in earlier;
      assert |earlier + {n}| == |earlier| + 1;
    }
  }

  /** With full coverage, every round retires its winner for good, so the
      loop ends within as many rounds as there are teachers. */
  lemma {:induction false} RunFinishesWithinTeacherCount<S>(teachers: seq<Teacher<S>>, st: State<S>, fuel: nat)
    requires |st.schedule| == |teachers| && teachers != []
    requires Coverable(st.unassigned, teachers)
    requires fuel >= |teachers|
    ensures Run(teachers, st, fuel).unassigned == {}
  {
    ActiveBounded(teachers, st.unassigned);
    RunFinishesWithinActive(teachers, st, fuel, Run(teachers, st, fuel));
  }

  /** A round retires its winner: the set of teachers that can still cover
      something loses at least the winner. */
  lemma ActiveShrinks<S>(teachers: seq<Teacher<S>>, st: State<S>)
    requires |st.schedule| == |teachers| && teachers != []
    requires st.unassigned != {} && Coverable(st.unassigned, teachers)
    ensures SelectBest(teachers, st.unassigned).Some?
    ensures var next := Assign(teachers, st, SelectBest(teachers, st.unassigned).value);
      |Active(teachers, next.unassigned)| < |Active(teachers, st.unassigned)|
  {
    var b := SelectBest(teachers, st.unassigned).value;
    SelectBestFollowsRule(teachers, st.unassigned);
    BestMakesProgress(teachers, st.unassigned, b);
    var before := Active(teachers, st.unassigned);
    var after := Active(teachers, Assign(teachers, st, b).unassigned);
    ActiveAfterAssign(teachers, st, b);
    assert b in before;
    SubsetCardinality(after, before - {b});
  }

  /** After a round, only teachers that could cover something before still
      can, and the winner no longer can. */
  lemma ActiveAfterAssign<S>(teachers: seq<Teacher<S>>, st: State<S>, b: nat)
    requires |st.schedule| == |teachers| && b < |teachers|
    ensures Active(teachers, Assign(teachers, st, b).unassigned) <= Active(teachers, st.unassigned) - {b}
  {
    var next := Assign(teachers, st, b);
    forall i | i in Active(teachers, next.unassigned) ensures i in Active(teachers, st.unassigned) - {b} {
      assert Coverage(teachers[i], next.unassigned) <= Coverage(teachers[i], st.unassigned);
    }
  }

  lemma {:induction false} RunFinishesWithinActive<S>(teachers: seq<Teacher<S>>, st: State<S>, fuel: nat, r: State<S>)
    requires |st.schedule| == |teachers| && teachers != []
    requires r == Run(teachers, st, fuel)
    ensures Coverable(st.unassigned, teachers) && fuel >= |Active(teachers, st.unassigned)| ==> r.unassigned == {}
    decreases fuel
  {
    if st.unassigned == {} {
      RunStops(teachers, st, fuel);
    } else if fuel == 0 {
      if Coverable(st.unassigned, teachers) {
        ActiveShrinks(teachers, st);
      }
    } else {
      var next := Assign(teachers, st, SelectBest(teachers, st.unassigned).value);
      RunUnfolds(teachers, st, fuel);
      RunFinishesWithinActive(teachers, next, fuel - 1, r);
      if Coverable(st.unassigned, teachers) {
        ActiveShrinks(teachers, st);
        RoundShrinks(teachers, st);
      }
    }
  }

  /** When no teacher can cover any remaining subject (but there are
      teachers), the best count is 0 and the round changes nothing: the loop
      state is a fixed point. */
  lemma StallsWhenNothingCoverable<S>(teachers: seq<Teacher<S>>, st: State<S>)
    requires |st.schedule| == |teachers| && teachers != []
    requires forall j :: 0 <= j < |teachers| ==> Coverage(teachers[j], st.unassigned) == {}
    ensures SelectBest(teachers, st.unassigned).Some?
    ensures var b := SelectBest(teachers, st.unassigned).value;
      Count(teachers[b], st.unassigned) == 0 && Assign(teachers, st, b) == st
  {
    var b := SelectBest(teachers, st.unassigned).value;
    assert Coverage(teachers[b], st.unassigned) == {};
    assert st.schedule[b := st.schedule[b] + {}] == st.schedule;
  }

  /** A subject no teacher can teach stays unassigned however many rounds
      run; with a non-empty teacher list the loop therefore never exits. */
  lemma {:induction false} UncoverableStaysUnassigned<S>(teachers: seq<Teacher<S>>, st: State<S>, s: S, fuel: nat)
    requires |st.schedule| == |teachers|
    requires s in st.unassigned
    requires forall j :: 0 <= j < |teachers| ==> s !in teachers[j].canTeach
    ensures s in Run(teachers, st, fuel).unassigned
    ensures teachers != [] ==> SelectBest(teachers, Run(teachers, st, fuel).unassigned).Some?
    decreases fuel
  {
    if fuel > 0 && teachers != [] {
      var b := SelectBest(teachers, st.unassigned).value;
      UncoverableStaysUnassigned(teachers, Assign(teachers, st, b), s, fuel - 1);
    }
  }

  // ---------------------------------------------------------------------------
  // The loop with the stop its error message describes
  // ---------------------------------------------------------------------------

  /** The subjects of `unassigned` that no teacher can teach. */
  ghost function Unteachable<S>(unassigned: set<S>, teachers: seq<Teacher<S>>): set<S>
  {
    set s | s in unassigned && forall j :: 0 <= j < |teachers| ==> s !in teachers[j].canTeach
  }

  /** The outer loop as its early-return comment describes it: it also ends
      when the best teacher can cover no remaining subject. */
  function RunStoppingAtZero<S>(teachers: seq<Teacher<S>>, st: State<S>, fuel: nat): (r: State<S>)
    requires |st.schedule| == |teachers|
    ensures |r.schedule| == |teachers|
    decreases fuel
  {
    if fuel == 0 || st.unassigned == {} then st
    else match SelectBest(teachers, st.unassigned)
      case None => st
      case Some(b) =>
        if Count(teachers[b], st.unassigned) == 0 then st
        else RunStoppingAtZero(teachers, Assign(teachers, st, b), fuel - 1)
  }

  /** A state in which the stopping loop ends: nothing open, no teachers, or
      a best teacher that can cover nothing. */
  predicate Stopped<S>(teachers: seq<Teacher<S>>, st: State<S>)
  {
    st.unassigned == {} || teachers == [] ||
    Count(teachers[SelectBest(teachers, st.unassigned).value], st.unassigned) == 0
  }

  /** When the best count is 0, nobody can teach any open subject. */
  lemma ZeroBestLeavesUnteachable<S>(teachers: seq<Teacher<S>>, u: set<S>)
    requires teachers != [] && Count(teachers[SelectBest(teachers, u).value], u) == 0
    ensures Unteachable(u, teachers) == u
  {
    SelectBestFollowsRule(teachers, u);
    forall s | s in u ensures s in Unteachable(u, teachers) {
      forall j | 0 <= j < |teachers| ensures s !in teachers[j].canTeach {
        assert Count(teachers[j], u) == 0;
        assert s !in Coverage(teachers[j], u);
      }
    }
  }

  /** A round that covers something shrinks the open set, and it never
      removes a subject nobody can teach. */
  lemma CoveringRoundKeepsUnteachable<S>(teachers: seq<Teacher<S>>, st: State<S>, b: nat)
    requires |st.schedule| == |teachers| && b < |teachers|
    requires Count(teachers[b], st.unassigned) > 0
    ensures var next := Assign(teachers, st, b);
      && |next.unassigned| < |st.unassigned|
      && Unteachable(next.unassigned, teachers) == Unteachable(st.unassigned, teachers)
  {
    var u := st.unassigned;
    var next := Assign(teachers, st, b);
    var x :| x in Coverage(teachers[b], u);
    SubsetCardinality(next.unassigned, u - {x});
    forall s | s in Unteachable(u, teachers) ensures s in next.unassigned {
      assert s !in teachers[b].canTeach;
    }
  }

  /** Within `|unassigned|` rounds the stopping loop reaches a state where it
      ends, and exactly the subjects nobody can teach are left open. */
  lemma {:induction false} StoppingRunLeavesUnteachable<S>(teachers: seq<Teacher<S>>, st: State<S>, fuel: nat, r: State<S>)
    requires |st.schedule| == |teachers| && r == RunStoppingAtZero(teachers, st, fuel)
    ensures fuel >= |st.unassigned| ==>
      Stopped(teachers, r) && r.unassigned == Unteachable(st.unassigned, teachers)
    decreases fuel
  {
    var u := st.unassigned;
    if u == {} {
      assert Unteachable(u, teachers) == {};
    } else if teachers == [] {
      assert Unteachable(u, teachers) == u;
    } else if Count(teachers[SelectBest(teachers, u).value], u) == 0 {
      ZeroBestLeavesUnteachable(teachers, u);
    } else if fuel > 0 {
      var b := SelectBest(teachers, u).value;
      StoppingRunLeavesUnteachable(teachers, Assign(teachers, st, b), fuel - 1, r);
      CoveringRoundKeepsUnteachable(teachers, st, b);
    }
  }

  /** When every subject has a teacher, the stop never fires before the end:
      the stopping loop computes what the loop as written computes. */
  lemma {:induction false} StoppingRunAgrees<S>(teachers: seq<Teacher<S>>, st: State<S>, fuel: nat, r: State<S>)
    requires |st.schedule| == |teachers| && teachers != []
    requires r == RunStoppingAtZero(teachers, st, fuel)
    ensures Coverable(st.unassigned, teachers) ==> r == Run(teachers, st, fuel)
    decreases fuel
  {
    if fuel == 0 || st.unassigned == {} {
      RunStops(teachers, st, fuel);
    } else {
      var b := SelectBest(teachers, st.unassigned).value;
      var next := Assign(teachers, st, b);
      StoppingRunAgrees(teachers, next, fuel - 1, r);
      if Coverable(st.unassigned, teachers) {
        SelectBestFollowsRule(teachers, st.unassigned);
        BestMakesProgress(teachers, st.unassigned, b);
        RoundShrinks(teachers, st);
        RunUnfolds(teachers, st, fuel);
      }
    }
  }

  // ---------------------------------------------------------------------------
  // create_schedule
  // ---------------------------------------------------------------------------

  /** `create_schedule(subjects, teachers)`. It terminates only when every
      subject has a teacher or there are no teachers at all (see
      UncoverableStaysUnassigned). When every subject has a teacher, the
      result is a partition of `set(subjects)` that respects every teacher's
      abilities; with no teachers it is empty. */
  method CreateSchedule<S>(subjects: seq<S>, teachers: seq<Teacher<S>>) returns (schedule: seq<set<S>>)
    requires teachers == [] || Coverable(Elements(subjects), teachers)
    ensures schedule == GreedySchedule(subjects, teachers)
  {
    var start := Initial(subjects, teachers);
    schedule := start.schedule;
    var unassigned := start.unassigned;
    ghost var fuel := |unassigned|;
    ghost var final := Run(teachers, start, fuel);
    assert final.schedule == GreedySchedule(subjects, teachers);
    while unassigned != {}
      invariant |schedule| == |teachers|
      invariant teachers == [] || Coverable(unassigned, teachers)
      invariant fuel >= |unassigned|
      invariant Run(teachers, State(schedule, unassigned), fuel) == final
      decreases |unassigned|
    {
      var best := FindBestTeacher(teachers, unassigned);
      if best.None? {
        RunStops(teachers, State(schedule, unassigned), fuel);
        return;
      }
      var b := best.value;
      ghost var cur := State(schedule, unassigned);
      var taken := teachers[b].canTeach * unassigned;
      schedule := schedule[b := schedule[b] + taken];
      unassigned := unassigned - taken;
      LoopStep(teachers, cur, b, fuel, final, State(schedule, unassigned));
      fuel := fuel - 1;
    }
    RunStops(teachers, State(schedule, unassigned), fuel);
  }

  /** With nothing left to assign, or nobody to assign it to, no further
      round changes the state. */
  lemma RunStops<S>(teachers: seq<Teacher<S>>, st: State<S>, fuel: nat)
    requires |st.schedule| == |teachers|
    requires fuel == 0 || st.unassigned == {} || teachers == []
    ensures Run(teachers, st, fuel) == st
  {
  }

  /** What one pass of the `while` body preserves: the rest stays coverable,
      the unassigned set shrinks, and the rounds still to come lead to the
      same final state. */
  lemma LoopStep<S>(teachers: seq<Teacher<S>>, st: State<S>, b: nat, fuel: nat, final: State<S>, next: State<S>)
    requires |st.schedule| == |teachers|
    requires st.unassigned != {} && (teachers == [] || Coverable(st.unassigned, teachers))
    requires SelectBest(teachers, st.unassigned) == Some(b)
    requires fuel >= |st.unassigned| && Run(teachers, st, fuel) == final
    requires next == State(st.schedule[b := st.schedule[b] + teachers[b].canTeach * st.unassigned],
                           st.unassigned - teachers[b].canTeach * st.unassigned)
    ensures |next.schedule| == |teachers|
    ensures teachers == [] || Coverable(next.unassigned, teachers)
    ensures fuel - 1 >= |next.unassigned| && Run(teachers, next, fuel - 1) == final
    ensures |next.unassigned| < |st.unassigned|
  {
    assert next == Assign(teachers, st, b);
    RoundShrinks(teachers, st);
    RunUnfolds(teachers, st, fuel);
  }

  /** The schedule has one list per input teacher. With no subjects every
      list stays empty; with no teachers the schedule is empty. */
  lemma GreedyScheduleEdgeCases<S>(subjects: seq<S>, teachers: seq<Teacher<S>>)
    ensures |GreedySchedule(subjects, teachers)| == |teachers|
    ensures subjects == [] ==> GreedySchedule(subjects, teachers) == seq(|teachers|, _ => {})
    ensures teachers == [] ==> GreedySchedule(subjects, teachers) == []
  {
    var init := Initial(subjects, teachers);
    if subjects == [] {
      assert init.unassigned == {};
      RunStops(teachers, init, |Elements(subjects)|);
    }
    if teachers == [] {
      RunStops(teachers, init, |Elements(subjects)|);
    }
  }

  /** The greedy schedule gives each teacher only subjects from the list that
      they can teach, and no subject to two teachers. */
  lemma GreedyScheduleIsValid<S>(subjects: seq<S>, teachers: seq<Teacher<S>>)
    ensures var g := GreedySchedule(subjects, teachers);
      && |g| == |teachers|
      && (forall i :: 0 <= i < |teachers| ==> g[i] <= teachers[i].canTeach && g[i] <= Elements(subjects))
      && (forall i, j :: 0 <= i < j < |teachers| ==> g[i] !! g[j])
  {
    var all := Elements(subjects);
    InitialIsConsistent(subjects, teachers);
    RunKeepsConsistent(all, teachers, Initial(subjects, teachers), |all|, Run(teachers, Initial(subjects, teachers), |all|));
  }

  /** When every subject has a teacher, the greedy schedule hands out every
      subject. */
  lemma GreedyScheduleCoversAll<S>(subjects: seq<S>, teachers: seq<Teacher<S>>)
    requires teachers != [] && Coverable(Elements(subjects), teachers)
    ensures var g := GreedySchedule(subjects, teachers);
      forall s :: s in subjects ==> exists i :: 0 <= i < |teachers| && s in g[i]
  {
    var all := Elements(subjects);
    var init := Initial(subjects, teachers);
    InitialIsConsistent(subjects, teachers);
    RunKeepsConsistent(all, teachers, init, |all|, Run(teachers, init, |all|));
    RunFinishes(teachers, init, |all|, Run(teachers, init, |all|));
    var r := Run(teachers, init, |all|);
    var g := GreedySchedule(subjects, teachers);
    assert g == r.schedule;
    forall s | s in subjects
      ensures exists i :: 0 <= i < |teachers| && s in g[i]
    {
      assert s in all && s !in r.unassigned;
      var i :| 0 <= i < |teachers| && s in r.schedule[i];
      assert s in g[i];
    }
  }

  // ---------------------------------------------------------------------------
  // Scenarios
  // ---------------------------------------------------------------------------

  /** Two teachers can take the one remaining subject; the one aged 29 wins
      over the one aged 50 although listed second. */
  lemma TieBreakByAge<S>(x: S)
    ensures SelectBest([Teacher(50, {x}), Teacher(29, {x})], {x}) == Some(1)
  {
    var ts := [Teacher(50, {x}), Teacher(29, {x})];
    assert Count(ts[0], {x}) == 1 && Count(ts[1], {x}) == 1;
    assert Scan(ts, {x}, 1) == Pick(Some(0), 1, Some(50));
    assert Scan(ts, {x}, 2) == Pick(Some(1), 1, Some(29));
  }

  /** Equal count and equal age: the first teacher in list order wins. */
  lemma TieBreakByOrder<S>(x: S)
    ensures SelectBest([Teacher(40, {x}), Teacher(40, {x})], {x}) == Some(0)
  {
    var ts := [Teacher(40, {x}), Teacher(40, {x})];
    assert Count(ts[0], {x}) == 1 && Count(ts[1], {x}) == 1;
    assert Scan(ts, {x}, 1) == Pick(Some(0), 1, Some(40));
    assert Scan(ts, {x}, 2) == Pick(Some(0), 1, Some(40));
  }
}
