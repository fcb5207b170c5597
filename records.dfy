/**
 * Test outcomes as the sink stores them, and their dictionary images:
 * `TestCase.to_dict` and `Module.to_dict` (nosetests_json_extended/sink.py).
 * A Python dict is modelled by a datatype with one field per key; a key that
 * may be missing is an `Option` field that is `None` exactly when the key is absent.
 */
module Records {
  import opened Options

  /** The three outcomes the plugin reports for a test. */
  datatype Outcome = Success | Failed | Error

  /** `TestCaseDescription(module, name)`; `module` is a reserved word in Dafny. */
  datatype TestCaseDescription = TestCaseDescription(moduleName: string, name: string)

  /** `ErrorDescription(message, traceback)`, also the shape of the `error` entry of a testcase dict. */
  datatype ErrorDescription = ErrorDescription(message: string, traceback: string)

  /** One recorded outcome (class `TestCase`). */
  datatype TestCase = TestCase(result: Outcome, testcase: TestCaseDescription, error: Option<ErrorDescription>)

  /** `{name, result[, error]}`: `error` is `None` when the dict has no `error` key. */
  datatype TestCaseDict = TestCaseDict(name: string, result: Outcome, error: Option<ErrorDescription>)

  /** A module and the outcomes recorded for it (class `Module`). */
  datatype Module = Module(name: string, testcases: seq<TestCase>)

  /** `{name, nr_success, nr_failed, nr_error, testcases}`. */
  datatype ModuleDict = ModuleDict(name: string, nrSuccess: nat, nrFailed: nat, nrError: nat,
                                   testcases: seq<TestCaseDict>)

  /** `TestCase.to_dict`: name and result copied; the `error` key present exactly when an error was recorded. */
  function TestCaseToDict(tc: TestCase): (d: TestCaseDict)
    ensures d.name == tc.testcase.name && d.result == tc.result
    ensures d.error.Some? <==> tc.error.Some?
    ensures tc.error.Some? ==>
              d.error.value.message == tc.error.value.message && d.error.value.traceback == tc.error.value.traceback
  {
    TestCaseDict(tc.testcase.name, tc.result, if tc.error.Some? then Some(tc.error.value) else None)
  }

  /** How many entries of `os` are `o`: one bucket of `Counter(os)`. */
  function Tally(os: seq<Outcome>, o: Outcome): (n: nat)
    ensures n <= |os|
  {
    if os == [] then 0 else Tally(os[..|os| - 1], o) + (if os[|os| - 1] == o then 1 else 0)
  }

  /** The buckets of the tally are the multiplicities of the multiset of outcomes. */
  lemma {:induction false} TallyIsMultiplicity(os: seq<Outcome>, o: Outcome)
    ensures Tally(os, o) == multiset(os)[o]
  {
    if os != [] {
      TallyIsMultiplicity(os[..|os| - 1], o);
      assert os == os[..|os| - 1] + [os[|os| - 1]];
    }
  }

  /** The three buckets together count every outcome exactly once. */
  lemma {:induction false} TallySum(os: seq<Outcome>)
    ensures Tally(os, Success) + Tally(os, Failed) + Tally(os, Error) == |os|
  {
    if os != [] {
      TallySum(os[..|os| - 1]);
    }
  }

  /** The `result` of each stored testcase, in order. */
  function Results(tcs: seq<TestCase>): (os: seq<Outcome>)
    ensures |os| == |tcs| && forall i :: 0 <= i < |tcs| ==> os[i] == tcs[i].result
  {
    seq(|tcs|, i requires 0 <= i < |tcs| => tcs[i].result)
  }

  /**
   * `Module.to_dict`: one testcase dict per stored testcase, in the same order,
   * and counters that tally the stored results and add up to the number of testcases.
   */
  function ModuleToDict(m: Module): (d: ModuleDict)
    ensures d.name == m.name
    ensures |d.testcases| == |m.testcases|
    ensures forall i :: 0 <= i < |m.testcases| ==> d.testcases[i] == TestCaseToDict(m.testcases[i])
    ensures d.nrSuccess == Tally(Results(m.testcases), Success)
    ensures d.nrFailed == Tally(Results(m.testcases), Failed)
    ensures d.nrError == Tally(Results(m.testcases), Error)
    ensures d.nrSuccess + d.nrFailed + d.nrError == |d.testcases|
  {
    var counts := Results(m.testcases);
    var testcases := seq(|m.testcases|, i requires 0 <= i < |m.testcases| => TestCaseToDict(m.testcases[i]));
    TallySum(counts);
    ModuleDict(m.name, Tally(counts, Success), Tally(counts, Failed), Tally(counts, Error), testcases)
  }
}
