/** A model of `TaskExtensions.WhenAny`: a bounded-window scheduler that keeps
    at most `batchSize` tasks in a working set, hands out one completed task
    whenever the set is full, and drains the set once the input is exhausted.

    Tasks are opaque values compared by reference, modelled as a type with
    equality. `Task.WhenAny`, which returns whichever task of the set completes
    first, is modelled as a nondeterministic choice of some element of the
    working set. Each `yield return` is an append to the `yielded` sequence. */
module TaskExtensions {

  /** The set of elements of a sequence. */
  ghost function Elems<T>(s: seq<T>): set<T> {
    set x | x in s
  }

  /** No task reference occurs twice: each one is new with respect to those
      before it. */
  ghost predicate Distinct<T>(s: seq<T>) {
    s == [] || (s[|s| - 1] !in s[..|s| - 1] && Distinct(s[..|s| - 1]))
  }

  /** In a sequence without repetitions, no element occurs before its own position. */
  lemma {:induction false} DistinctAt<T>(s: seq<T>, i: nat)
    requires Distinct(s) && i < |s|
    ensures s[i] !in s[..i]
  {
    if i < |s| - 1 {
      var p := s[..|s| - 1];
      DistinctAt(p, i);
      assert p[..i] == s[..i];
    }
  }

  /** One call of `Task.WhenAny`: the working set it was given, and how many
      tasks of the input had been enumerated when it was called. */
  datatype Choice<T> = Choice(window: set<T>, enumerated: nat)

  /** What enumerating the async stream produces: either the argument
      exception, or the tasks yielded in order together with the choice that
      produced each of them. */
  datatype Outcome<T> =
    | ArgumentOutOfRange(paramName: string, message: string)
    | Enumerated(yielded: seq<T>, choices: seq<Choice<T>>)

  /** How many inputs had been enumerated at the `k`-th choice, or none
      before the first. */
  function Since<T>(choices: seq<Choice<T>>, k: nat): nat
    requires k <= |choices|
  {
    if k == 0 then 0 else choices[k - 1].enumerated
  }

  /** The working set after the first `k` choices, once `enumerated` tasks
      of the input have been added: the window of the k-th choice minus the
      task taken from it, plus every task enumerated since that choice. */
  ghost function WorkingSet<T>(tasks: seq<T>, yielded: seq<T>, choices: seq<Choice<T>>, k: nat, enumerated: nat): set<T>
    requires k <= |choices| == |yielded| && enumerated <= |tasks|
    requires k > 0 ==> choices[k - 1].enumerated <= enumerated
  {
    if k == 0 then Elems(tasks[..enumerated])
    else choices[k - 1].window - {yielded[k - 1]} + Elems(tasks[choices[k - 1].enumerated..enumerated])
  }

  /** What the working set holds: every task enumerated since the k-th
      choice; not the task that choice took, unless it was enumerated again;
      and before the first choice, nothing but the tasks enumerated. */
  lemma WorkingSetContents<T>(tasks: seq<T>, yielded: seq<T>, choices: seq<Choice<T>>, k: nat, enumerated: nat)
    requires k <= |choices| == |yielded| && Since(choices, k) <= enumerated <= |tasks|
    ensures forall j :: Since(choices, k) <= j < enumerated ==> tasks[j] in WorkingSet(tasks, yielded, choices, k, enumerated)
    ensures k > 0 && yielded[k - 1] !in tasks[Since(choices, k)..enumerated] ==>
      yielded[k - 1] !in WorkingSet(tasks, yielded, choices, k, enumerated)
    ensures k == 0 ==> forall x :: x in WorkingSet(tasks, yielded, choices, k, enumerated) ==> x in tasks[..enumerated]
  {
    var lo := Since(choices, k);
    forall j | lo <= j < enumerated
      ensures tasks[j] in Elems(tasks[lo..enumerated])
    {
      assert tasks[lo..enumerated][j - lo] == tasks[j];
    }
  }

  lemma ElemsSnoc<T>(s: seq<T>, x: T)
    ensures Elems(s + [x]) == Elems(s) + {x}
  {
    assert forall y :: y in s + [x] <==> y in s || y == x;
  }

  lemma ElemsSliceSnoc<T>(s: seq<T>, lo: nat, hi: nat)
    requires lo <= hi < |s|
    ensures Elems(s[lo..hi + 1]) == Elems(s[lo..hi]) + {s[hi]}
  {
    assert s[lo..hi + 1] == s[lo..hi] + [s[hi]];
    ElemsSnoc(s[lo..hi], s[hi]);
  }

  /** Removing a task from the working set and appending it to the yielded
      sequence leaves their combined multiset unchanged. */
  lemma MoveToYielded<T>(yielded: seq<T>, w: set<T>, x: T)
    requires x in w
    ensures multiset(yielded + [x]) + multiset(w - {x}) == multiset(yielded) + multiset(w)
  {
    assert multiset(w) == multiset(w - {x}) + multiset{x};
  }

  /** Adding the next task to the working set: the combined multiset grows by
      that task exactly when it was not in the set already. */
  lemma AddToWorkingSet<T>(w: set<T>, x: T)
    ensures x in w ==> multiset(w + {x}) == multiset(w)
    ensures x !in w ==> multiset(w + {x}) == multiset(w) + multiset{x}
  {
    if x in w {
      assert w + {x} == w;
    }
  }

  /** The facts about the choices made so far that hold at every point of the
      enumeration, once `n` tasks of the input have been taken. */
  ghost predicate ChoicesValid<T>(tasks: seq<T>, batchSize: int, yielded: seq<T>, choices: seq<Choice<T>>, n: nat) {
    |choices| == |yielded| && n <= |tasks| &&
    (forall k :: 0 <= k < |choices| ==>
      yielded[k] in choices[k].window && |choices[k].window| <= batchSize && choices[k].enumerated <= n) &&
    (forall k :: 0 <= k < |choices| && choices[k].enumerated < |tasks| ==> |choices[k].window| == batchSize) &&
    (forall j, k :: 0 <= j < k < |choices| ==> choices[j].enumerated <= choices[k].enumerated) &&
    (forall k {:trigger WorkingSet(tasks, yielded, choices, k, choices[k].enumerated)} :: 0 <= k < |choices| ==>
      choices[k].window == WorkingSet(tasks, yielded, choices, k, choices[k].enumerated)) &&
    (forall k {:trigger BelowUntil(tasks, batchSize, yielded, choices, k, choices[k].enumerated)} :: 0 <= k < |choices| ==>
      BelowUntil(tasks, batchSize, yielded, choices, k, choices[k].enumerated))
  }

  /** After the first `k` choices, the working set stayed below `batchSize`
      while the inputs up to the `e`-th were added: if any input was added
      since the k-th choice, the set was not yet full before the last of
      them, so no choice was due. */
  ghost predicate BelowUntil<T>(tasks: seq<T>, batchSize: int, yielded: seq<T>, choices: seq<Choice<T>>, k: nat, e: nat)
    requires k <= |choices| == |yielded|
  {
    Since(choices, k) <= e <= |tasks| &&
    (Since(choices, k) < e ==> |WorkingSet(tasks, yielded, choices, k, e - 1)| < batchSize)
  }

  /** No choice was due between the last one and the `n`-th input. */
  ghost predicate Waiting<T>(tasks: seq<T>, batchSize: int, yielded: seq<T>, choices: seq<Choice<T>>, n: nat) {
    |choices| == |yielded| && BelowUntil(tasks, batchSize, yielded, choices, |choices|, n)
  }

  /** Every task of the first `n` inputs is either yielded or still in the
      working set, and a task has been yielded or held no more often than it
      occurs. */
  ghost predicate Accounted<T>(tasks: seq<T>, yielded: seq<T>, processing: set<T>, n: nat)
    requires n <= |tasks|
  {
    Elems(yielded) + processing == Elems(tasks[..n]) &&
    multiset(yielded) + multiset(processing) <= multiset(tasks[..n]) &&
    (Distinct(tasks) ==> multiset(yielded) + multiset(processing) == multiset(tasks[..n]))
  }

  /** The state of the enumeration once `n` inputs have been taken: the
      choices so far are valid, `processing` is the working set they leave,
      every task is accounted for, and a window of one is empty between
      iterations. */
  ghost predicate Progress<T>(tasks: seq<T>, batchSize: int, yielded: seq<T>, choices: seq<Choice<T>>, processing: set<T>, n: nat) {
    n <= |tasks| && |processing| <= batchSize &&
    ChoicesValid(tasks, batchSize, yielded, choices, n) &&
    processing == WorkingSet(tasks, yielded, choices, |choices|, n) &&
    Waiting(tasks, batchSize, yielded, choices, n) &&
    Accounted(tasks, yielded, processing, n) &&
    (batchSize == 1 ==> processing == {} && yielded == tasks[..n])
  }

  /** `WhenAny(tasks, batchSize)`, enumerated to the end. */
  method WhenAny<T(==)>(tasks: seq<T>, batchSize: int) returns (r: Outcome<T>)
    // a batch size below one is rejected, before any task is taken from the input
    ensures r.ArgumentOutOfRange? <==> batchSize < 1
    ensures r.ArgumentOutOfRange? ==> r == ArgumentOutOfRange("batchSize", "Batch size must be positive.")
    // every yield comes from one call of Task.WhenAny, which picked it from the
    // working set; the working set never held more than batchSize tasks
    ensures r.Enumerated? ==> |r.choices| == |r.yielded|
    ensures r.Enumerated? ==> forall k :: 0 <= k < |r.choices| ==>
      r.yielded[k] in r.choices[k].window && |r.choices[k].window| <= batchSize && r.choices[k].enumerated <= |tasks|
    // while input remains, a choice is made only from a full working set
    ensures r.Enumerated? ==> forall k :: 0 <= k < |r.choices| && r.choices[k].enumerated < |tasks| ==>
      |r.choices[k].window| == batchSize
    ensures r.Enumerated? ==> forall j, k :: 0 <= j < k < |r.choices| ==>
      r.choices[j].enumerated <= r.choices[k].enumerated
    // each window is exactly the working set built by the earlier adds and removes
    ensures r.Enumerated? ==> forall k {:trigger WorkingSet(tasks, r.yielded, r.choices, k, r.choices[k].enumerated)} :: 0 <= k < |r.choices| ==>
      r.choices[k].window == WorkingSet(tasks, r.yielded, r.choices, k, r.choices[k].enumerated)
    // and a choice is made as soon as the working set is full: between one
    // choice and the next, the set stayed below batchSize
    ensures r.Enumerated? ==> forall k, e {:trigger WorkingSet(tasks, r.yielded, r.choices, k, e)} ::
      0 <= k < |r.choices| && Since(r.choices, k) <= e < r.choices[k].enumerated ==>
      |WorkingSet(tasks, r.yielded, r.choices, k, e)| < batchSize
    // the drain leaves the working set empty
    ensures r.Enumerated? ==> WorkingSet(tasks, r.yielded, r.choices, |r.choices|, |tasks|) == {}
    // every distinct input task is yielded, nothing else is, and no task more
    // often than it occurs in the input
    ensures r.Enumerated? ==> Elems(r.yielded) == Elems(tasks)
    ensures r.Enumerated? ==> multiset(r.yielded) <= multiset(tasks)
    ensures r.Enumerated? && Distinct(tasks) ==> multiset(r.yielded) == multiset(tasks)
    // a window of one keeps the input order
    ensures r.Enumerated? && batchSize == 1 ==> r.yielded == tasks
  {
    if batchSize < 1 {
      return ArgumentOutOfRange("batchSize", "Batch size must be positive.");
    }

    var yielded, choices, processing := Fill(tasks, batchSize);
    yielded, choices := Drain(tasks, batchSize, yielded, choices, processing);
    Drained(tasks, batchSize, yielded, choices);
    NeverFullBetween(tasks, batchSize, yielded, choices, |tasks|);
    r := Enumerated(yielded, choices);
  }

  /** A task reference that occurs twice is yielded twice: with a window of
      one, the first occurrence has already left the working set when the
      second is added. */
  method RepeatedTaskYieldedTwice() returns (r: Outcome<int>)
    ensures r.Enumerated? && r.yielded == [7, 7]
  {
    r := WhenAny([7, 7], 1);
  }

  /** The `foreach` over the input: each task joins the working set, and a
      full working set gives up one completed task. */
  method Fill<T(==)>(tasks: seq<T>, batchSize: int) returns (yielded: seq<T>, choices: seq<Choice<T>>, processing: set<T>)
    requires batchSize >= 1
    ensures |processing| < batchSize
    ensures Progress(tasks, batchSize, yielded, choices, processing, |tasks|)
  {
    processing, yielded, choices := {}, [], [];
    Start(tasks, batchSize);

    for i := 0 to |tasks|
      invariant |processing| < batchSize
      invariant Progress(tasks, batchSize, yielded, choices, processing, i)
    {
      yielded, choices, processing := Take(tasks, batchSize, yielded, choices, processing, i);
    }
  }

  /** One iteration of the `foreach`: `tasks[i]` joins the working set, and
      if that fills it, one completed task is removed and yielded. */
  method Take<T(==)>(tasks: seq<T>, batchSize: int, yielded: seq<T>, choices: seq<Choice<T>>, processing: set<T>, i: nat)
    returns (yielded': seq<T>, choices': seq<Choice<T>>, processing': set<T>)
    requires i < |tasks| && |processing| < batchSize
    requires Progress(tasks, batchSize, yielded, choices, processing, i)
    ensures var added := processing + {tasks[i]};
      if |added| < batchSize then
        yielded' == yielded && choices' == choices && processing' == added
      else
        |yielded'| == |yielded| + 1 && yielded' == yielded + [yielded'[|yielded|]] && yielded'[|yielded|] in added &&
        processing' == added - {yielded'[|yielded|]} && choices' == choices + [Choice(added, i + 1)]
    ensures |processing'| < batchSize
    ensures Progress(tasks, batchSize, yielded', choices', processing', i + 1)
  {
    var task := tasks[i];
    Add(tasks, batchSize, yielded, choices, processing, i);
    processing' := processing + {task};
    yielded', choices' := yielded, choices;

    if |processing'| == batchSize {
      assert task in processing';
      var completed;
      completed, yielded', choices', processing' := Complete(tasks, batchSize, yielded, choices, processing', i + 1);
    }
  }

  /** The `while` loop after the input is exhausted: the working set is
      awaited task by task until it is empty. */
  method Drain<T(==)>(tasks: seq<T>, batchSize: int, yielded: seq<T>, choices: seq<Choice<T>>, processing: set<T>)
    returns (yielded': seq<T>, choices': seq<Choice<T>>)
    requires Progress(tasks, batchSize, yielded, choices, processing, |tasks|)
    ensures Progress(tasks, batchSize, yielded', choices', {}, |tasks|)
    ensures |yielded'| == |yielded| + |processing| && yielded'[..|yielded|] == yielded
  {
    yielded', choices' := yielded, choices;
    var rest := processing;
    while rest != {}
      invariant Progress(tasks, batchSize, yielded', choices', rest, |tasks|)
      invariant |yielded'| + |rest| == |yielded| + |processing| && yielded'[..|yielded|] == yielded
      decreases |rest|
    {
      ghost var before := yielded';
      var completed;
      completed, yielded', choices', rest := Complete(tasks, batchSize, yielded', choices', rest, |tasks|);
      assert yielded'[..|before|] == before;
    }
  }

  /** One await of `Task.WhenAny` over the working set `window`, once `n`
      inputs have been taken: some task of the window completes, is removed
      from it and is yielded, and the window is recorded as a choice. */
  method Complete<T(==)>(tasks: seq<T>, batchSize: int, yielded: seq<T>, choices: seq<Choice<T>>, window: set<T>, n: nat)
    returns (completed: T, yielded': seq<T>, choices': seq<Choice<T>>, processing': set<T>)
    requires ChoicesValid(tasks, batchSize, yielded, choices, n)
    requires window == WorkingSet(tasks, yielded, choices, |choices|, n)
    requires Waiting(tasks, batchSize, yielded, choices, n)
    requires Accounted(tasks, yielded, window, n)
    requires window != {} && |window| <= batchSize
    requires n < |tasks| ==> |window| == batchSize
    requires batchSize == 1 ==> 0 < n && window == {tasks[n - 1]} && yielded == tasks[..n - 1]
    ensures completed in window
    ensures yielded' == yielded + [completed] && processing' == window - {completed}
    ensures |processing'| == |window| - 1
    ensures choices' == choices + [Choice(window, n)]
    ensures Progress(tasks, batchSize, yielded', choices', processing', n)
  {
    completed :| completed in window;
    Choose(tasks, batchSize, yielded, choices, window, n, completed);
    Shrinks(window, completed);
    choices' := choices + [Choice(window, n)];
    processing' := window - {completed};
    yielded' := yielded + [completed];
  }

  /** Before the first task is taken, nothing is held and nothing has been yielded. */
  lemma Start<T>(tasks: seq<T>, batchSize: int)
    requires batchSize >= 1
    ensures Progress(tasks, batchSize, [], [], {}, 0)
  {
    assert tasks[..0] == [];
    assert Elems(tasks[..0]) == {};
    var none: set<T> := {};
    assert multiset(none) == multiset{};
  }

  /** Adding `tasks[i]` to the working set, before the fill loop checks
      whether it is full: the facts kept so far hold one task further on. */
  lemma Add<T>(tasks: seq<T>, batchSize: int, yielded: seq<T>, choices: seq<Choice<T>>, processing: set<T>, i: nat)
    requires i < |tasks| && |processing| < batchSize
    requires Progress(tasks, batchSize, yielded, choices, processing, i)
    ensures var added := processing + {tasks[i]};
      |added| <= batchSize &&
      ChoicesValid(tasks, batchSize, yielded, choices, i + 1) &&
      added == WorkingSet(tasks, yielded, choices, |choices|, i + 1) &&
      Waiting(tasks, batchSize, yielded, choices, i + 1) &&
      Accounted(tasks, yielded, added, i + 1) &&
      (|added| < batchSize ==> Progress(tasks, batchSize, yielded, choices, added, i + 1)) &&
      (batchSize == 1 ==> added == {tasks[i]} && yielded == tasks[..i])
  {
    AddGrows(tasks, batchSize, yielded, choices, processing, i);
    AddKeepsAccount(tasks, yielded, processing, i);
    AddKeepsChoices(tasks, batchSize, yielded, choices, i);
  }

  /** The working set grows by the task just enumerated, and it was below
      `batchSize` before that task was added. */
  lemma AddGrows<T>(tasks: seq<T>, batchSize: int, yielded: seq<T>, choices: seq<Choice<T>>, processing: set<T>, i: nat)
    requires i < |tasks| && Waiting(tasks, batchSize, yielded, choices, i)
    requires processing == WorkingSet(tasks, yielded, choices, |choices|, i) && |processing| < batchSize
    ensures processing + {tasks[i]} == WorkingSet(tasks, yielded, choices, |choices|, i + 1)
    ensures Waiting(tasks, batchSize, yielded, choices, i + 1)
  {
    if choices == [] {
      ElemsSliceSnoc(tasks, 0, i);
      assert tasks[..i] == tasks[0..i] && tasks[..i + 1] == tasks[0..i + 1];
    } else {
      ElemsSliceSnoc(tasks, choices[|choices| - 1].enumerated, i);
    }
  }

  /** Taking `completed` out of the working set `window` and yielding it, in
      either loop, keeps the facts both loops maintain. */
  lemma Choose<T>(tasks: seq<T>, batchSize: int, yielded: seq<T>, choices: seq<Choice<T>>, window: set<T>, n: nat, completed: T)
    requires ChoicesValid(tasks, batchSize, yielded, choices, n)
    requires window == WorkingSet(tasks, yielded, choices, |choices|, n)
    requires Waiting(tasks, batchSize, yielded, choices, n)
    requires Accounted(tasks, yielded, window, n)
    requires completed in window && |window| <= batchSize
    requires n < |tasks| ==> |window| == batchSize
    requires batchSize == 1 ==> 0 < n && window == {tasks[n - 1]} && yielded == tasks[..n - 1]
    ensures Progress(tasks, batchSize, yielded + [completed], choices + [Choice(window, n)], window - {completed}, n)
  {
    ChooseKeepsChoices(tasks, batchSize, yielded, choices, window, n, completed);
    ChooseKeepsAccount(tasks, yielded, window, n, completed);
    ChooseRestarts(tasks, batchSize, yielded, choices, window, n, completed);
    Shrinks(window, completed);
    if batchSize == 1 {
      SingleSlot(tasks, yielded, window, n - 1, completed);
    }
  }

  /** After a choice, the working set is the chosen window without the task
      taken from it, and no input has been added since. */
  lemma ChooseRestarts<T>(tasks: seq<T>, batchSize: int, yielded: seq<T>, choices: seq<Choice<T>>, window: set<T>, n: nat, completed: T)
    requires |choices| == |yielded| && n <= |tasks|
    ensures var c, y := choices + [Choice(window, n)], yielded + [completed];
      window - {completed} == WorkingSet(tasks, y, c, |c|, n) && Waiting(tasks, batchSize, y, c, n)
  {
    var c := choices + [Choice(window, n)];
    assert c[|c| - 1] == Choice(window, n);
    assert tasks[n..n] == [];
    assert Elems(tasks[n..n]) == {};
  }

  /** With a window of one, the task just enumerated is the only one there is
      to choose. */
  lemma SingleSlot<T>(tasks: seq<T>, yielded: seq<T>, window: set<T>, i: nat, completed: T)
    requires i < |tasks| && yielded == tasks[..i]
    requires window == {tasks[i]} && completed in window
    ensures completed == tasks[i] && window - {completed} == {}
    ensures yielded + [completed] == tasks[..i + 1]
  {
    assert tasks[..i + 1] == tasks[..i] + [tasks[i]];
  }

  lemma Shrinks<T>(s: set<T>, x: T)
    requires x in s
    ensures |s - {x}| == |s| - 1
  {
    assert s == (s - {x}) + {x};
  }

  /** Once the drain loop has emptied the working set, the facts the loops kept
      give what the whole enumeration promises. */
  lemma Drained<T>(tasks: seq<T>, batchSize: int, yielded: seq<T>, choices: seq<Choice<T>>)
    requires Progress(tasks, batchSize, yielded, choices, {}, |tasks|)
    ensures Elems(yielded) == Elems(tasks)
    ensures multiset(yielded) <= multiset(tasks)
    ensures Distinct(tasks) ==> multiset(yielded) == multiset(tasks)
  {
    assert tasks[..|tasks|] == tasks;
    var none: set<T> := {};
    assert multiset(none) == multiset{};
  }

  /** Between one choice and the next, the working set stayed below
      `batchSize`: a choice was made as soon as the set filled up. */
  lemma NeverFullBetween<T>(tasks: seq<T>, batchSize: int, yielded: seq<T>, choices: seq<Choice<T>>, n: nat)
    requires ChoicesValid(tasks, batchSize, yielded, choices, n)
    ensures forall k, e {:trigger WorkingSet(tasks, yielded, choices, k, e)} ::
      0 <= k < |choices| && Since(choices, k) <= e < choices[k].enumerated ==>
      |WorkingSet(tasks, yielded, choices, k, e)| < batchSize
  {
    forall k, e | 0 <= k < |choices| && Since(choices, k) <= e < choices[k].enumerated
      ensures |WorkingSet(tasks, yielded, choices, k, e)| < batchSize
    {
      assert BelowUntil(tasks, batchSize, yielded, choices, k, choices[k].enumerated);
      NotFullBefore(tasks, batchSize, yielded, choices, k, e, choices[k].enumerated);
    }
  }

  /** If the working set was below `batchSize` just before the input `last`
      was added, it was below it at every earlier point since the k-th choice. */
  lemma NotFullBefore<T>(tasks: seq<T>, batchSize: int, yielded: seq<T>, choices: seq<Choice<T>>, k: nat, e: nat, last: nat)
    requires k <= |choices| == |yielded| && Since(choices, k) <= e < last
    requires BelowUntil(tasks, batchSize, yielded, choices, k, last)
    ensures |WorkingSet(tasks, yielded, choices, k, e)| < batchSize
  {
    WorkingSetGrows(tasks, yielded, choices, k, e, last - 1);
    SubsetSize(WorkingSet(tasks, yielded, choices, k, e), WorkingSet(tasks, yielded, choices, k, last - 1));
  }

  /** Until the next choice, the working set only gains tasks. */
  lemma WorkingSetGrows<T>(tasks: seq<T>, yielded: seq<T>, choices: seq<Choice<T>>, k: nat, e: nat, e': nat)
    requires k <= |choices| == |yielded| && Since(choices, k) <= e <= e' <= |tasks|
    ensures WorkingSet(tasks, yielded, choices, k, e) <= WorkingSet(tasks, yielded, choices, k, e')
  {
    var lo := Since(choices, k);
    forall x | x in tasks[lo..e]
      ensures x in tasks[lo..e']
    {
      var j :| 0 <= j < e - lo && tasks[lo..e][j] == x;
      assert tasks[lo..e'][j] == x;
    }
    if k == 0 {
      assert tasks[..e] == tasks[lo..e] && tasks[..e'] == tasks[lo..e'];
    }
  }

  lemma SubsetSize<T>(a: set<T>, b: set<T>)
    requires a <= b
    ensures |a| <= |b|
  {
    assert b == a + (b - a);
  }

  /** A task added to a set below `batchSize` leaves the choices as they
      were, and no choice was due. */
  lemma AddKeepsChoices<T>(tasks: seq<T>, batchSize: int, yielded: seq<T>, choices: seq<Choice<T>>, i: nat)
    requires i < |tasks|
    requires ChoicesValid(tasks, batchSize, yielded, choices, i)
    ensures ChoicesValid(tasks, batchSize, yielded, choices, i + 1)
  {
  }

  lemma AddKeepsAccount<T>(tasks: seq<T>, yielded: seq<T>, processing: set<T>, i: nat)
    requires i < |tasks|
    requires Accounted(tasks, yielded, processing, i)
    ensures Accounted(tasks, yielded, processing + {tasks[i]}, i + 1)
  {
    var x := tasks[i];
    assert tasks[..i + 1] == tasks[..i] + [x];
    ElemsSnoc(tasks[..i], x);
    AddToWorkingSet(processing, x);
    if Distinct(tasks) {
      DistinctAt(tasks, i);
      assert x !in Elems(tasks[..i]);
    }
  }

  lemma ChooseKeepsChoices<T>(tasks: seq<T>, batchSize: int, yielded: seq<T>, choices: seq<Choice<T>>, window: set<T>, n: nat, completed: T)
    requires ChoicesValid(tasks, batchSize, yielded, choices, n)
    requires window == WorkingSet(tasks, yielded, choices, |choices|, n)
    requires Waiting(tasks, batchSize, yielded, choices, n)
    requires completed in window && |window| <= batchSize
    requires n < |tasks| ==> |window| == batchSize
    ensures ChoicesValid(tasks, batchSize, yielded + [completed], choices + [Choice(window, n)], n)
  {
    ChooseKeepsBounds(tasks, batchSize, yielded, choices, window, n, completed);
    ChooseKeepsWindows(tasks, batchSize, yielded, choices, window, n, completed);
    ChooseKeepsBelow(tasks, batchSize, yielded, choices, window, n, completed);
  }

  lemma ChooseKeepsBounds<T>(tasks: seq<T>, batchSize: int, yielded: seq<T>, choices: seq<Choice<T>>, window: set<T>, n: nat, completed: T)
    requires ChoicesValid(tasks, batchSize, yielded, choices, n)
    requires completed in window && |window| <= batchSize
    requires n < |tasks| ==> |window| == batchSize
    ensures var c, y := choices + [Choice(window, n)], yielded + [completed];
      (forall k :: 0 <= k < |c| ==> y[k] in c[k].window && |c[k].window| <= batchSize && c[k].enumerated <= n) &&
      (forall k :: 0 <= k < |c| && c[k].enumerated < |tasks| ==> |c[k].window| == batchSize) &&
      (forall j, k :: 0 <= j < k < |c| ==> c[j].enumerated <= c[k].enumerated)
  {
    var c, y := choices + [Choice(window, n)], yielded + [completed];
    assert forall k :: 0 <= k < |choices| ==> c[k] == choices[k] && y[k] == yielded[k];
  }

  lemma ChooseKeepsWindows<T>(tasks: seq<T>, batchSize: int, yielded: seq<T>, choices: seq<Choice<T>>, window: set<T>, n: nat, completed: T)
    requires ChoicesValid(tasks, batchSize, yielded, choices, n)
    requires window == WorkingSet(tasks, yielded, choices, |choices|, n)
    ensures var c, y := choices + [Choice(window, n)], yielded + [completed];
      forall k {:trigger WorkingSet(tasks, y, c, k, c[k].enumerated)} :: 0 <= k < |c| ==>
        c[k].window == WorkingSet(tasks, y, c, k, c[k].enumerated)
  {
    var c, y := choices + [Choice(window, n)], yielded + [completed];
    forall k | 0 <= k < |c|
      ensures c[k].window == WorkingSet(tasks, y, c, k, c[k].enumerated)
    {
      if k < |choices| {
        SameWorkingSet(tasks, yielded, choices, window, n, completed, k, c[k].enumerated);
      }
    }
  }

  lemma ChooseKeepsBelow<T>(tasks: seq<T>, batchSize: int, yielded: seq<T>, choices: seq<Choice<T>>, window: set<T>, n: nat, completed: T)
    requires ChoicesValid(tasks, batchSize, yielded, choices, n)
    requires Waiting(tasks, batchSize, yielded, choices, n)
    ensures var c, y := choices + [Choice(window, n)], yielded + [completed];
      forall k {:trigger BelowUntil(tasks, batchSize, y, c, k, c[k].enumerated)} :: 0 <= k < |c| ==>
        BelowUntil(tasks, batchSize, y, c, k, c[k].enumerated)
  {
    var c, y := choices + [Choice(window, n)], yielded + [completed];
    forall k | 0 <= k < |c|
      ensures BelowUntil(tasks, batchSize, y, c, k, c[k].enumerated)
    {
      SameBelowUntil(tasks, batchSize, yielded, choices, window, n, completed, k, c[k].enumerated);
      if k < |choices| {
        assert c[k] == choices[k];
      }
    }
  }

  /** A new choice does not change the working sets of the choices before it. */
  lemma SameWorkingSet<T>(tasks: seq<T>, yielded: seq<T>, choices: seq<Choice<T>>, window: set<T>, n: nat, completed: T, k: nat, e: nat)
    requires k <= |choices| == |yielded| && e <= |tasks|
    requires k > 0 ==> choices[k - 1].enumerated <= e
    ensures WorkingSet(tasks, yielded + [completed], choices + [Choice(window, n)], k, e) == WorkingSet(tasks, yielded, choices, k, e)
  {
    if k > 0 {
      assert (choices + [Choice(window, n)])[k - 1] == choices[k - 1];
      assert (yielded + [completed])[k - 1] == yielded[k - 1];
    }
  }

  /** Nor does it change whether the working sets before it stayed below `batchSize`. */
  lemma SameBelowUntil<T>(tasks: seq<T>, batchSize: int, yielded: seq<T>, choices: seq<Choice<T>>, window: set<T>, n: nat, completed: T, k: nat, e: nat)
    requires k <= |choices| == |yielded|
    ensures BelowUntil(tasks, batchSize, yielded + [completed], choices + [Choice(window, n)], k, e) ==
      BelowUntil(tasks, batchSize, yielded, choices, k, e)
  {
    var c := choices + [Choice(window, n)];
    if k > 0 {
      assert c[k - 1] == choices[k - 1];
    }
    assert Since(c, k) == Since(choices, k);
    if Since(choices, k) < e <= |tasks| {
      SameWorkingSet(tasks, yielded, choices, window, n, completed, k, e - 1);
    }
  }

  lemma ChooseKeepsAccount<T>(tasks: seq<T>, yielded: seq<T>, window: set<T>, n: nat, completed: T)
    requires n <= |tasks|
    requires Accounted(tasks, yielded, window, n)
    requires completed in window
    ensures Accounted(tasks, yielded + [completed], window - {completed}, n)
  {
    ElemsSnoc(yielded, completed);
    MoveToYielded(yielded, window, completed);
  }
}
