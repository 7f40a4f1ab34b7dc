/**
 * The reference run of `create_schedule` (Task2.py:68-101): five subjects and
 * six teachers. Only ages and abilities matter to the scheduler; the names
 * in the comments are the teachers' last names.
 */
module ReferenceSchedule {
  import opened Wrappers
  import opened Scheduling

  /** Математика, Фізика, Хімія, Інформатика, Біологія. */
  datatype Subject = Mathematics | Physics | Chemistry | ComputerScience | Biology

  const Subjects: seq<Subject> := [Mathematics, Physics, Chemistry, ComputerScience, Biology]

  const Teachers: seq<Teacher<Subject>> := [
    Teacher(45, {Mathematics, Physics}),       // Іваненко
    Teacher(38, {Chemistry}),                  // Петренко
    Teacher(50, {ComputerScience, Mathematics}), // Коваленко
    Teacher(29, {Biology, Chemistry}),         // Шевченко
    Teacher(35, {Physics, ComputerScience}),   // Бондаренко
    Teacher(42, {Biology})                     // Гриценко
  ]

  /** Every subject of the reference data has a teacher, so the loop ends. */
  lemma ReferenceIsCoverable()
    ensures Coverable(Elements(Subjects), Teachers)
  {
    assert Elements(Subjects) == {Mathematics, Physics, Chemistry, ComputerScience, Biology};
    assert Mathematics in Teachers[0].canTeach && Physics in Teachers[0].canTeach;
    assert Chemistry in Teachers[1].canTeach && ComputerScience in Teachers[2].canTeach;
    assert Biology in Teachers[3].canTeach;
  }

  /** Round 1: every subject is open; Шевченко (29) beats the other teachers
      that cover two subjects. */
  lemma RoundOne()
    ensures SelectBest(Teachers, {Mathematics, Physics, Chemistry, ComputerScience, Biology}) == Some(3)
  {
    var u := {Mathematics, Physics, Chemistry, ComputerScience, Biology};
    assert Coverage(Teachers[0], u) == {Mathematics, Physics};
    assert Coverage(Teachers[1], u) == {Chemistry};
    assert Coverage(Teachers[2], u) == {ComputerScience, Mathematics};
    assert Coverage(Teachers[3], u) == {Biology, Chemistry};
    assert Coverage(Teachers[4], u) == {Physics, ComputerScience};
    assert Coverage(Teachers[5], u) == {Biology};
    assert Scan(Teachers, u, 1) == Pick(Some(0), 2, Some(45));
    assert Scan(Teachers, u, 2) == Pick(Some(0), 2, Some(45));
    assert Scan(Teachers, u, 3) == Pick(Some(0), 2, Some(45));
    assert Scan(Teachers, u, 4) == Pick(Some(3), 2, Some(29));
    assert Scan(Teachers, u, 5) == Pick(Some(3), 2, Some(29));
    assert Scan(Teachers, u, 6) == Pick(Some(3), 2, Some(29));
  }

  /** Round 2: Mathematics, Physics and Computer Science are open; Бондаренко
      (35) beats Іваненко (45) and Коваленко (50). */
  lemma RoundTwo()
    ensures SelectBest(Teachers, {Mathematics, Physics, ComputerScience}) == Some(4)
  {
    var u := {Mathematics, Physics, ComputerScience};
    assert Coverage(Teachers[0], u) == {Mathematics, Physics};
    assert Coverage(Teachers[1], u) == {};
    assert Coverage(Teachers[2], u) == {ComputerScience, Mathematics};
    assert Coverage(Teachers[3], u) == {};
    assert Coverage(Teachers[4], u) == {Physics, ComputerScience};
    assert Coverage(Teachers[5], u) == {};
    assert Scan(Teachers, u, 1) == Pick(Some(0), 2, Some(45));
    assert Scan(Teachers, u, 2) == Pick(Some(0), 2, Some(45));
    assert Scan(Teachers, u, 3) == Pick(Some(0), 2, Some(45));
    assert Scan(Teachers, u, 4) == Pick(Some(0), 2, Some(45));
    assert Scan(Teachers, u, 5) == Pick(Some(4), 2, Some(35));
    assert Scan(Teachers, u, 6) == Pick(Some(4), 2, Some(35));
  }

  /** Round 3: only Mathematics is open; Іваненко (45) beats Коваленко (50). */
  lemma RoundThree()
    ensures SelectBest(Teachers, {Mathematics}) == Some(0)
  {
    var u := {Mathematics};
    assert Coverage(Teachers[0], u) == {Mathematics};
    assert Coverage(Teachers[1], u) == {};
    assert Coverage(Teachers[2], u) == {Mathematics};
    assert Coverage(Teachers[3], u) == {};
    assert Coverage(Teachers[4], u) == {};
    assert Coverage(Teachers[5], u) == {};
    assert Scan(Teachers, u, 1) == Pick(Some(0), 1, Some(45));
    assert Scan(Teachers, u, 2) == Pick(Some(0), 1, Some(45));
    assert Scan(Teachers, u, 3) == Pick(Some(0), 1, Some(45));
    assert Scan(Teachers, u, 6) == Pick(Some(0), 1, Some(45));
  }

  const Open0: set<Subject> := {Mathematics, Physics, Chemistry, ComputerScience, Biology}
  const State0: State<Subject> := State([{}, {}, {}, {}, {}, {}], Open0)
  const State1: State<Subject> :=
    State([{}, {}, {}, {Biology, Chemistry}, {}, {}], {Mathematics, Physics, ComputerScience})
  const State2: State<Subject> :=
    State([{}, {}, {}, {Biology, Chemistry}, {Physics, ComputerScience}, {}], {Mathematics})
  const State3: State<Subject> :=
    State([{Mathematics}, {}, {}, {Biology, Chemistry}, {Physics, ComputerScience}, {}], {})

  lemma StartsFromState0()
    ensures Initial(Subjects, Teachers) == State0
  {
    assert Elements(Subjects) == Open0;
  }

  lemma AssignOne()
    ensures Assign(Teachers, State0, 3) == State1
  {
    assert Coverage(Teachers[3], Open0) == {Biology, Chemistry};
    assert Open0 - {Biology, Chemistry} == State1.unassigned;
    assert State0.schedule[3] + {Biology, Chemistry} == {Biology, Chemistry};
    assert State0.schedule[3 := {Biology, Chemistry}] == State1.schedule;
  }

  lemma AssignTwo()
    ensures Assign(Teachers, State1, 4) == State2
  {
    assert Coverage(Teachers[4], State1.unassigned) == {Physics, ComputerScience};
    assert State1.unassigned - {Physics, ComputerScience} == State2.unassigned;
    assert State1.schedule[4] + {Physics, ComputerScience} == {Physics, ComputerScience};
    assert State1.schedule[4 := {Physics, ComputerScience}] == State2.schedule;
  }

  lemma AssignThree()
    ensures Assign(Teachers, State2, 0) == State3
  {
    assert Coverage(Teachers[0], State2.unassigned) == {Mathematics};
    assert State2.unassigned - {Mathematics} == {};
    assert State2.schedule[0] + {Mathematics} == {Mathematics};
    assert State2.schedule[0 := {Mathematics}] == State3.schedule;
  }

  /** Round 1 of the loop leaves the rounds after it to finish from State1. */
  lemma StepOne()
    ensures Run(Teachers, State0, 5) == Run(Teachers, State1, 4)
  {
    RunUnfolds(Teachers, State0, 5);
    RoundOne();
    AssignOne();
  }

  lemma StepTwo()
    ensures Run(Teachers, State1, 4) == Run(Teachers, State2, 3)
  {
    RunUnfolds(Teachers, State1, 4);
    RoundTwo();
    AssignTwo();
  }

  lemma StepThree()
    ensures Run(Teachers, State2, 3) == State3
  {
    RunUnfolds(Teachers, State2, 3);
    RoundThree();
    AssignThree();
    RunStops(Teachers, State3, 2);
  }

  /** The reference schedule: Шевченко teaches Biology and Chemistry,
      Бондаренко Physics and Computer Science, Іваненко Mathematics; the
      other three teachers get nothing. */
  lemma ReferenceResult()
    ensures GreedySchedule(Subjects, Teachers) ==
      [{Mathematics}, {}, {}, {Biology, Chemistry}, {Physics, ComputerScience}, {}]
  {
    StartsFromState0();
    assert |Elements(Subjects)| == 5 by {
      assert Elements(Subjects) == Open0;
    }
    StepOne();
    StepTwo();
    StepThree();
  }
}
