// The menu of main.py: the collected grouping is numbered 1, 2, 3, ... in
// order, the user's answer is resolved against that numbering, the chosen
// module runs inside a `with` block, and the closing prompt decides whether
// the menu is shown again. Terminal output is modelled as the message the
// block prints; reading input is an `answer` parameter.

module MainMenu {
  import opened Wrappers
  import opened PyStrings
  import opened PyExceptions
  import opened LoadModules
  import opened ModuleBase
  import LoadModulesProperties

  /* ---------------------------------------------------------------------- */
  /* Numbering                                                              */
  /* ---------------------------------------------------------------------- */

  /** The selection table the numbering loop should build: number `k`
      stands for the `k`-th instance of the flattened grouping. */
  function Numbering<I>(flat: seq<I>): map<int, I>
    decreases |flat|
  {
    if flat == [] then map[]
    else Numbering(flat[..|flat| - 1])[|flat| := flat[|flat| - 1]]
  }

  /** The instances of a selection table read back by number, 1 to `n`. */
  function Listing<I>(mapping: map<int, I>, n: nat): seq<I>
    requires forall k :: 1 <= k <= n ==> k in mapping
  {
    seq(n, i requires 0 <= i < n => mapping[i + 1])
  }

  /** The numbers in use are exactly 1 to the number of instances: no gap,
      nothing below 1, nothing past the end. */
  lemma {:induction false} NumberingKeys<I>(flat: seq<I>, k: int)
    ensures k in Numbering(flat) <==> 1 <= k <= |flat|
    ensures k in Numbering(flat) ==> Numbering(flat)[k] == flat[k - 1]
    decreases |flat|
  {
    if flat != [] && k != |flat| {
      NumberingKeys(flat[..|flat| - 1], k);
    }
  }

  /** Reading the table back by number gives the flattened grouping: the
      numbering loses nothing and keeps the order. */
  lemma NumberingRoundTrip<I>(flat: seq<I>)
    ensures forall k :: 1 <= k <= |flat| ==> k in Numbering(flat)
    ensures Listing(Numbering(flat), |flat|) == flat
  {
    forall k | 1 <= k <= |flat| ensures k in Numbering(flat) && Numbering(flat)[k] == flat[k - 1] {
      NumberingKeys(flat, k);
    }
  }

  /** Different groupings in flattened order give different tables. */
  lemma NumberingInjective<I>(a: seq<I>, b: seq<I>)
    requires Numbering(a) == Numbering(b)
    ensures a == b
  {
    assert |a| == |b| by {
      NumberingKeys(a, |a|);
      NumberingKeys(b, |a|);
      NumberingKeys(a, |b|);
      NumberingKeys(b, |b|);
    }
    NumberingRoundTrip(a);
    NumberingRoundTrip(b);
  }

  /** The numbering loop of `main`: `module_number` starts at 1 and moves
      on by one per instance, visiting the groups in insertion order and
      each list in order, while `module_mapping` is filled in place. */
  method BuildMapping<I>(groups: Grouping<I>) returns (mapping: map<int, I>, moduleNumber: int)
    ensures mapping == Numbering(Flatten(groups))
    ensures moduleNumber == |Flatten(groups)| + 1
  {
    moduleNumber := 1;
    mapping := map[];
    var g := 0;
    while g < |groups|
      invariant 0 <= g <= |groups|
      invariant mapping == Numbering(Flatten(groups[..g]))
      invariant moduleNumber == |Flatten(groups[..g])| + 1
    {
      var moduleList := groups[g].1;
      ghost var done := Flatten(groups[..g]);
      var j := 0;
      assert done + moduleList[..j] == done;
      while j < |moduleList|
        invariant 0 <= j <= |moduleList|
        invariant mapping == Numbering(done + moduleList[..j])
        invariant moduleNumber == |done| + j + 1
      {
        assert (done + moduleList[..j + 1])[..|done| + j] == done + moduleList[..j];
        mapping := mapping[moduleNumber := moduleList[j]];
        moduleNumber := moduleNumber + 1;
        j := j + 1;
      }
      assert groups[..g + 1][..g] == groups[..g];
      assert moduleList[..j] == moduleList;
      g := g + 1;
    }
    assert groups[..g] == groups;
  }

  /* ---------------------------------------------------------------------- */
  /* Resolving the answer                                                   */
  /* ---------------------------------------------------------------------- */

  /** What the answer to "Choose a module" selects. */
  datatype Selection<I> = Chosen(number: int, instance: I) | UnknownNumber(number: int) | NotANumber

  /** `int(input())` and the membership test of `main`. */
  function Resolve<I>(mapping: map<int, I>, answer: string): Selection<I> {
    match PyInt(answer)
    case None => NotANumber
    case Some(n) => if n in mapping then Chosen(n, mapping[n]) else UnknownNumber(n)
  }

  /** Typing a number in range, with any whitespace around it, selects the
      instance with that position in the flattened grouping. */
  lemma ResolveInRange<I>(flat: seq<I>, k: int, pre: string, post: string)
    requires 1 <= k <= |flat|
    requires forall i :: 0 <= i < |pre| ==> IsSpace(pre[i])
    requires forall i :: 0 <= i < |post| ==> IsSpace(post[i])
    requires DigitCount(IntString(k)) <= MaxStrDigits
    ensures Resolve(Numbering(flat), pre + IntString(k) + post) == Chosen(k, flat[k - 1])
  {
    PyIntString(k, pre, post);
  }

  /** Any other integer, zero and negatives included, selects nothing. */
  lemma ResolveOutOfRange<I>(flat: seq<I>, k: int, pre: string, post: string)
    requires k < 1 || k > |flat|
    requires forall i :: 0 <= i < |pre| ==> IsSpace(pre[i])
    requires forall i :: 0 <= i < |post| ==> IsSpace(post[i])
    requires DigitCount(IntString(k)) <= MaxStrDigits
    ensures Resolve(Numbering(flat), pre + IntString(k) + post) == UnknownNumber(k)
  {
    PyIntString(k, pre, post);
  }

  /** A number written with more than `MaxStrDigits` digits is refused by
      `int()` and reported as not a number, even when its value is in the
      table (leading zeros count as digits). */
  lemma ResolveTooLong<I>(mapping: map<int, I>, answer: string)
    requires ParseInt(answer).Some? && DigitCount(Strip(answer)) > MaxStrDigits
    ensures Resolve(mapping, answer) == NotANumber
  {
    PyIntTooLong(answer);
  }

  /** Text that `int()` refuses is reported as not a number, whatever the
      table holds. */
  lemma ResolveNotANumber<I>(mapping: map<int, I>)
    ensures Resolve(mapping, "") == NotANumber
    ensures Resolve(mapping, "abc") == NotANumber
    ensures Resolve(mapping, "-") == NotANumber
    ensures Resolve(mapping, "1__0") == NotANumber
  {
    assert Strip("abc") == "abc" by { StripUnchanged("abc"); }
    assert Strip("-") == "-" by { StripUnchanged("-"); }
    assert Strip("1__0") == "1__0" by { StripUnchanged("1__0"); }
    assert !DigitGroups("1__0") by {
      var t := "1__0";
      assert t[1] == '_' && !IsDigit(t[2]);
    }
  }

  /** The menu built from a successful collection uses exactly the numbers
      1 to the count of `.py` files exposing `load` over the walk. */
  lemma MenuOfCollection<I>(directory: string, walk: seq<WalkEntry>, exec: string -> Execution<I>,
                            relpath: (string, string) -> Result<string, Exc>, k: int)
    requires Collection(directory, walk, exec, relpath).Success?
    requires LoadModulesProperties.DistinctRelpaths(directory, walk, relpath)
    ensures k in Numbering(Flatten(Collection(directory, walk, exec, relpath).value))
      <==> 1 <= k <= LoadModulesProperties.WalkProviderCount(walk, exec)
  {
    assert Collection(directory, walk, exec, relpath).value == WalkModules(directory, walk, exec, relpath).value;
    LoadModulesProperties.GroupingCount(directory, walk, exec, relpath);
    NumberingKeys(Flatten(Collection(directory, walk, exec, relpath).value), k);
  }

  /* ---------------------------------------------------------------------- */
  /* Dispatch                                                               */
  /* ---------------------------------------------------------------------- */

  const InvalidNumberMessage: string := "Invalid module number."
  const ValidNumberPrompt: string := "Please enter a valid number."

  /** How the try block of `main` ends. */
  datatype Outcome = Ran | Printed(message: string) | Raised(exc: Exc)

  /** How the try block ends once the chosen module's `run()` has finished
      with the given outcome: the `with` block passes any exception on, and
      `except ValueError` catches a `ValueError`, or an instance of a
      subclass such as `json.JSONDecodeError`, whether `int()` or `run()`
      raised it. */
  function AfterRun(run: Option<Exc>): (out: Outcome)
    ensures out == Ran <==> run.None?
    ensures out.Printed? <==> run.Some? && run.value.kind == ValueError
    ensures out.Printed? ==> out.message == ValidNumberPrompt
    ensures out.Raised? ==> run == Some(out.exc) && out.exc.kind != ValueError
  {
    match run
    case None => Ran
    case Some(e) => if e.kind == ValueError then Printed(ValidNumberPrompt) else Raised(e)
  }

  /** The try block of `main`: resolve the answer, and for a known number
      run that module inside `with`; `run` is how its `run()` ends. Only the
      chosen module's flag changes, and it is down again afterwards. */
  method Dispatch(mapping: map<int, Module>, answer: string, run: Option<Exc>) returns (out: Outcome)
    modifies mapping.Values
    ensures Resolve(mapping, answer).NotANumber? ==> out == Printed(ValidNumberPrompt)
    ensures Resolve(mapping, answer).UnknownNumber? ==> out == Printed(InvalidNumberMessage)
    ensures Resolve(mapping, answer).Chosen? ==> !Resolve(mapping, answer).instance.now && out == AfterRun(run)
    ensures forall m :: (m in mapping.Values && !(Resolve(mapping, answer).Chosen? && m == Resolve(mapping, answer).instance)
      ==> m.now == old(m.now))
  {
    var selectedNumber := PyInt(answer);
    if selectedNumber.None? {
      return Printed(ValidNumberPrompt);
    }
    if selectedNumber.value in mapping {
      var chosen := mapping[selectedNumber.value];
      var raised := WithBlock(chosen, run);
      out := AfterRun(raised);
    } else {
      out := Printed(InvalidNumberMessage);
    }
  }

  /* ---------------------------------------------------------------------- */
  /* The closing prompt                                                     */
  /* ---------------------------------------------------------------------- */

  /** `awaiting.lower() in ["yes", "y"]`: the menu is shown again. */
  predicate RunAgain(answer: string) {
    Lower(answer) in ["yes", "y"]
  }

  /** The menu repeats exactly for "y" and "yes" in any mix of case. */
  lemma RunAgainAnswers(answer: string)
    ensures RunAgain(answer) <==>
      (|answer| == 1 && answer[0] in "yY")
      || (|answer| == 3 && answer[0] in "yY" && answer[1] in "eE" && answer[2] in "sS")
  {
    var l := Lower(answer);
    if |answer| == 1 {
      assert l == [LowerChar(answer[0])];
    } else if |answer| == 3 {
      assert l == [LowerChar(answer[0]), LowerChar(answer[1]), LowerChar(answer[2])];
    }
  }
}
