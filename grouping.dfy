/**
 * The grouping and ordering half of `Sink.generate`
 * (nosetests_json_extended/sink.py): records grouped by module name with
 * arrival order kept inside each group, module dicts sorted by name, and the
 * facts that make the result a partition of the records.
 */
module Grouping {
  import opened PyStr
  import opened Records

  /** The module names that occur in `rs`: the keys of the `modules` dict once the scan is done. */
  function ModuleNames(rs: seq<TestCase>): set<string>
  {
    if rs == [] then {} else ModuleNames(rs[..|rs| - 1]) + {rs[|rs| - 1].testcase.moduleName}
  }

  /**
   * The records of module `n`, in arrival order: what `module.testcases`
   * holds after the scan (see GroupOfSelectsInOrder and GroupEmptyIffAbsent).
   */
  function GroupOf(rs: seq<TestCase>, n: string): seq<TestCase>
  {
    if rs == [] then []
    else
      var last := rs[|rs| - 1];
      GroupOf(rs[..|rs| - 1], n) + (if last.testcase.moduleName == n then [last] else [])
  }

  /** A name is among the module names exactly when some record carries it. */
  lemma {:induction false} ModuleNamesOccur(rs: seq<TestCase>)
    ensures forall i :: 0 <= i < |rs| ==> rs[i].testcase.moduleName in ModuleNames(rs)
    ensures forall n :: n in ModuleNames(rs) ==> exists i :: 0 <= i < |rs| && rs[i].testcase.moduleName == n
  {
    if rs != [] {
      var init := rs[..|rs| - 1];
      ModuleNamesOccur(init);
      assert forall i :: 0 <= i < |init| ==> init[i] == rs[i];
    }
  }

  /** A module has records exactly when its name occurs among them. */
  lemma {:induction false} GroupEmptyIffAbsent(rs: seq<TestCase>, n: string)
    ensures GroupOf(rs, n) == [] <==> n !in ModuleNames(rs)
  {
    if rs != [] {
      GroupEmptyIffAbsent(rs[..|rs| - 1], n);
    }
  }

  /** The `modules` dict after scanning `rs`: each name that occurs, mapped to its module and group. */
  ghost function Scanned(rs: seq<TestCase>): map<string, Module> {
    map n | n in ModuleNames(rs) :: Module(n, GroupOf(rs, n))
  }

  /**
   * Scanning one more record creates its module if the name is new and
   * appends the record to that module; every other module stays as it was.
   */
  lemma ScanOneMore(rs: seq<TestCase>, x: TestCase)
    ensures var n := x.testcase.moduleName;
            var before := Scanned(rs);
            Scanned(rs + [x]) == before[n := Module(n, (if n in before then before[n].testcases else []) + [x])]
  {
    var n := x.testcase.moduleName;
    var before, after := Scanned(rs), Scanned(rs + [x]);
    var expected := before[n := Module(n, (if n in before then before[n].testcases else []) + [x])];
    assert (rs + [x])[..|rs|] == rs;
    GroupEmptyIffAbsent(rs, n);
    assert after.Keys == expected.Keys;
    forall m | m in after
      ensures after[m] == expected[m]
    {
      assert GroupOf(rs + [x], m) == GroupOf(rs, m) + (if n == m then [x] else []);
    }
  }

  /** The positions in `rs` of the records of module `n`, in increasing order. */
  function GroupIndices(rs: seq<TestCase>, n: string): seq<nat>
  {
    if rs == [] then []
    else GroupIndices(rs[..|rs| - 1], n) + (if rs[|rs| - 1].testcase.moduleName == n then [|rs| - 1] else [])
  }

  /**
   * The group of `n` is the subsequence of `rs` at exactly the positions whose
   * record names `n`, taken in increasing (arrival) order.
   */
  lemma {:induction false} GroupOfSelectsInOrder(rs: seq<TestCase>, n: string)
    ensures var idx := GroupIndices(rs, n);
            var g := GroupOf(rs, n);
            |idx| == |g|
            && (forall k :: 0 <= k < |idx| ==> idx[k] < |rs| && g[k] == rs[idx[k]])
            && (forall k, l :: 0 <= k < l < |idx| ==> idx[k] < idx[l])
            && (forall i :: 0 <= i < |rs| ==> (i in idx <==> rs[i].testcase.moduleName == n))
  {
    if rs != [] {
      var init := rs[..|rs| - 1];
      var last := rs[|rs| - 1];
      GroupOfSelectsInOrder(init, n);
      var idx0, g0 := GroupIndices(init, n), GroupOf(init, n);
      var idx, g := GroupIndices(rs, n), GroupOf(rs, n);
      assert idx == idx0 + (if last.testcase.moduleName == n then [|rs| - 1] else []);
      assert g == g0 + (if last.testcase.moduleName == n then [last] else []);
      forall k | 0 <= k < |idx| ensures idx[k] < |rs| && g[k] == rs[idx[k]] {
        if k < |idx0| {
          assert idx[k] == idx0[k] && g[k] == g0[k] && init[idx0[k]] == rs[idx0[k]];
        }
      }
      forall i | 0 <= i < |rs| ensures i in idx <==> rs[i].testcase.moduleName == n {
        if i < |init| {
          assert init[i] == rs[i];
          assert i in idx <==> i in idx0;
        }
      }
    }
  }

  /** The name of each module dict, in order. */
  function Names(ms: seq<ModuleDict>): (ns: seq<string>)
    ensures |ns| == |ms| && forall j :: 0 <= j < |ms| ==> ns[j] == ms[j].name
  {
    seq(|ms|, j requires 0 <= j < |ms| => ms[j].name)
  }

  predicate Distinct(ns: seq<string>) {
    forall i, j :: 0 <= i < j < |ns| ==> ns[i] != ns[j]
  }

  predicate StrictlyAscending(ns: seq<string>) {
    forall i, j :: 0 <= i < j < |ns| ==> Less(ns[i], ns[j])
  }

  /** The order `sort(key=itemgetter('name'))` establishes: no later name is smaller. */
  predicate SortedByName(ms: seq<ModuleDict>) {
    forall i, j :: 0 <= i < j < |ms| ==> !Less(ms[j].name, ms[i].name)
  }

  /** Insert `x` before the first entry whose name is not smaller, as a stable sort would. */
  function InsertByName(x: ModuleDict, t: seq<ModuleDict>): (r: seq<ModuleDict>)
    ensures multiset(r) == multiset(t) + multiset{x}
    ensures forall y :: y in r <==> y == x || y in t
  {
    if t == [] || !Less(t[0].name, x.name) then [x] + t
    else
      assert t == [t[0]] + t[1..];
      [t[0]] + InsertByName(x, t[1..])
  }

  lemma {:induction false} InsertKeepsSorted(x: ModuleDict, t: seq<ModuleDict>)
    requires SortedByName(t)
    ensures SortedByName(InsertByName(x, t))
  {
    var r := InsertByName(x, t);
    if t == [] || !Less(t[0].name, x.name) {
      forall i, j | 0 <= i < j < |r| ensures !Less(r[j].name, r[i].name) {
        if i == 0 && j > 1 {
          NotLessTransitive(x.name, t[0].name, t[j - 1].name);
        }
      }
    } else {
      InsertKeepsSorted(x, t[1..]);
      LessAsymmetric(t[0].name, x.name);
      forall i, j | 0 <= i < j < |r| ensures !Less(r[j].name, r[i].name) {
        if i == 0 {
          assert r[j] in InsertByName(x, t[1..]);
        }
      }
    }
  }

  lemma {:induction false} InsertKeepsAscending(x: ModuleDict, t: seq<ModuleDict>)
    requires StrictlyAscending(Names(t)) && x.name !in Names(t)
    ensures StrictlyAscending(Names(InsertByName(x, t)))
  {
    if t != [] {
      assert Names(t)[0] == t[0].name;
      LessTotal(x.name, t[0].name);
      if !Less(t[0].name, x.name) {
        forall k | 0 <= k < |t| ensures Less(x.name, t[k].name) {
          if k > 0 {
            assert Names(t)[k] == t[k].name;
            LessTransitive(x.name, t[0].name, t[k].name);
          }
        }
        AscendingCons(x, t);
      } else {
        assert Names(t[1..]) == Names(t)[1..];
        InsertKeepsAscending(x, t[1..]);
        var r1 := InsertByName(x, t[1..]);
        forall k | 0 <= k < |r1| ensures Less(t[0].name, r1[k].name) {
          assert r1[k] in r1;
          if r1[k] != x {
            var j :| 0 <= j < |t[1..]| && t[1..][j] == r1[k];
            assert Names(t)[j + 1] == r1[k].name;
          }
        }
        AscendingCons(t[0], r1);
      }
    }
  }

  /** A head whose name is below every name of an ascending list keeps it ascending. */
  lemma AscendingCons(y: ModuleDict, u: seq<ModuleDict>)
    requires StrictlyAscending(Names(u))
    requires forall k :: 0 <= k < |u| ==> Less(y.name, u[k].name)
    ensures StrictlyAscending(Names([y] + u))
  {
    var ns := Names([y] + u);
    forall i, j | 0 <= i < j < |ns| ensures Less(ns[i], ns[j]) {
      assert ns[j] == u[j - 1].name;
      if i > 0 {
        assert ns[i] == Names(u)[i - 1] && ns[j] == Names(u)[j - 1];
      }
    }
  }

  /** `list.sort` with a name key: a permutation, ordered by name, strictly when names are distinct. */
  function SortByName(s: seq<ModuleDict>): (r: seq<ModuleDict>)
    ensures multiset(r) == multiset(s)
    ensures SortedByName(r)
    ensures Distinct(Names(s)) ==> StrictlyAscending(Names(r))
  {
    if s == [] then []
    else
      var rest := SortByName(s[1..]);
      SortStep(s, rest);
      InsertByName(s[0], rest)
  }

  /** One step of SortByName: inserting the head into the sorted tail keeps all three promises. */
  lemma SortStep(s: seq<ModuleDict>, rest: seq<ModuleDict>)
    requires s != []
    requires multiset(rest) == multiset(s[1..])
    requires SortedByName(rest)
    requires Distinct(Names(s[1..])) ==> StrictlyAscending(Names(rest))
    ensures multiset(InsertByName(s[0], rest)) == multiset(s)
    ensures SortedByName(InsertByName(s[0], rest))
    ensures Distinct(Names(s)) ==> StrictlyAscending(Names(InsertByName(s[0], rest)))
  {
    assert s == [s[0]] + s[1..];
    InsertKeepsSorted(s[0], rest);
    if Distinct(Names(s)) {
      DistinctStep(s, rest);
    }
  }

  /** With distinct names, inserting the head into the ascending tail keeps it strictly ascending. */
  lemma DistinctStep(s: seq<ModuleDict>, rest: seq<ModuleDict>)
    requires s != [] && Distinct(Names(s))
    requires multiset(rest) == multiset(s[1..])
    requires Distinct(Names(s[1..])) ==> StrictlyAscending(Names(rest))
    ensures StrictlyAscending(Names(InsertByName(s[0], rest)))
  {
    assert Names(s[1..]) == Names(s)[1..];
    HeadNotInRest(s, rest);
    InsertKeepsAscending(s[0], rest);
  }

  /** With distinct names, the head's name is not among the names of any permutation of the tail. */
  lemma HeadNotInRest(s: seq<ModuleDict>, rest: seq<ModuleDict>)
    requires s != [] && Distinct(Names(s))
    requires multiset(rest) == multiset(s[1..])
    ensures s[0].name !in Names(rest)
  {
    forall j | 0 <= j < |rest| ensures Names(rest)[j] != s[0].name {
      assert rest[j] in multiset(rest);
      var k :| 0 <= k < |s[1..]| && s[1..][k] == rest[j];
      assert Names(s)[k + 1] == rest[j].name;
    }
  }

  /** Strictly ascending names never repeat. */
  lemma AscendingIsDistinct(ns: seq<string>)
    requires StrictlyAscending(ns)
    ensures Distinct(ns)
  {
    forall i, j | 0 <= i < j < |ns| ensures ns[i] != ns[j] {
      LessIrreflexive(ns[i]);
    }
  }

  /** Two strictly ascending name lists with the same names are the same list. */
  lemma {:induction false} AscendingUnique(a: seq<string>, b: seq<string>)
    requires StrictlyAscending(a) && StrictlyAscending(b)
    requires forall n :: n in a <==> n in b
    ensures a == b
  {
    assert a != [] ==> a[0] in a;
    assert b != [] ==> b[0] in b;
    if a != [] && b != [] {
      assert a == [a[0]] + a[1..] && b == [b[0]] + b[1..];
      if a[0] != b[0] {
        assert a[0] in a && b[0] in b;
        var k :| 0 <= k < |b| && b[k] == a[0];
        var l :| 0 <= l < |a| && a[l] == b[0];
        assert Less(b[0], a[0]) && Less(a[0], b[0]);
        LessAsymmetric(b[0], a[0]);
        assert false;
      }
      forall n ensures n in a[1..] <==> n in b[1..] {
        if n in a[1..] {
          var k :| 0 <= k < |a[1..]| && a[1..][k] == n;
          assert Less(a[0], n);
          LessIrreflexive(n);
          assert n in b;
        }
        if n in b[1..] {
          var k :| 0 <= k < |b[1..]| && b[1..][k] == n;
          assert Less(b[0], n);
          LessIrreflexive(n);
          assert n in a;
        }
      }
      AscendingUnique(a[1..], b[1..]);
    }
  }

  /**
   * What `generate` returns as `modules` for the stored `records`: names
   * strictly ascending, exactly the module names that occur in the records,
   * and at each name the dict of that module's records in arrival order.
   */
  ghost predicate Grouped(records: seq<TestCase>, modules: seq<ModuleDict>) {
    StrictlyAscending(Names(modules))
    && (forall n :: n in Names(modules) <==> n in ModuleNames(records))
    && (forall j :: 0 <= j < |modules| ==>
          modules[j] == ModuleToDict(Module(modules[j].name, GroupOf(records, modules[j].name))))
  }

  /** The records determine the module list: generating twice from the same records gives the same modules. */
  lemma GroupedUnique(records: seq<TestCase>, a: seq<ModuleDict>, b: seq<ModuleDict>)
    requires Grouped(records, a) && Grouped(records, b)
    ensures a == b
  {
    AscendingUnique(Names(a), Names(b));
    forall j | 0 <= j < |a| ensures a[j] == b[j] {
      assert a[j].name == Names(a)[j] == Names(b)[j] == b[j].name;
    }
  }

  /** The record at position `i` lands in exactly one module: the one named by its own `testcase.module`. */
  lemma RecordInExactlyOneModule(records: seq<TestCase>, modules: seq<ModuleDict>, i: int)
    requires Grouped(records, modules) && 0 <= i < |records|
    ensures exists j :: 0 <= j < |modules| && modules[j].name == records[i].testcase.moduleName
    ensures forall j, j' ::
              (0 <= j < |modules| && 0 <= j' < |modules| && modules[j].name == records[i].testcase.moduleName
               && modules[j'].name == records[i].testcase.moduleName) ==> j == j'
    ensures forall j :: 0 <= j < |modules| && modules[j].name == records[i].testcase.moduleName ==>
              TestCaseToDict(records[i]) in modules[j].testcases
  {
    var n := records[i].testcase.moduleName;
    ModuleNamesOccur(records);
    assert n in Names(modules);
    AscendingIsDistinct(Names(modules));
    forall j, j' | 0 <= j < |modules| && 0 <= j' < |modules| && modules[j].name == n && modules[j'].name == n
      ensures j == j'
    {
      assert Names(modules)[j] == Names(modules)[j'];
    }
    GroupOfSelectsInOrder(records, n);
    var idx := GroupIndices(records, n);
    assert i in idx;
    var k :| 0 <= k < |idx| && idx[k] == i;
    forall j | 0 <= j < |modules| && modules[j].name == n
      ensures TestCaseToDict(records[i]) in modules[j].testcases
    {
      assert modules[j].testcases[k] == TestCaseToDict(records[i]);
    }
  }

  /**
   * Module `j` lists, in arrival order, the dicts of exactly the records whose
   * `testcase.module` is its name: the k-th testcase comes from position
   * `idx[k]` of the records, and those positions increase.
   */
  lemma ModuleTestcasesInArrivalOrder(records: seq<TestCase>, modules: seq<ModuleDict>, j: int)
    requires Grouped(records, modules) && 0 <= j < |modules|
    ensures var idx := GroupIndices(records, modules[j].name);
            var tcs := modules[j].testcases;
            |idx| == |tcs| && 0 < |tcs|
            && (forall k :: 0 <= k < |idx| ==> idx[k] < |records| && tcs[k] == TestCaseToDict(records[idx[k]]))
            && (forall k, l :: 0 <= k < l < |idx| ==> idx[k] < idx[l])
            && (forall i :: 0 <= i < |records| ==> (i in idx <==> records[i].testcase.moduleName == modules[j].name))
  {
    var n := modules[j].name;
    GroupOfSelectsInOrder(records, n);
    assert n in Names(modules);
    GroupEmptyIffAbsent(records, n);
  }

  function SumTestcases(ms: seq<ModuleDict>): nat {
    if ms == [] then 0 else |ms[0].testcases| + SumTestcases(ms[1..])
  }

  function SumCounts(ms: seq<ModuleDict>): nat {
    if ms == [] then 0 else ms[0].nrSuccess + ms[0].nrFailed + ms[0].nrError + SumCounts(ms[1..])
  }

  function SumGroupSizes(rs: seq<TestCase>, ns: seq<string>): nat {
    if ns == [] then 0 else |GroupOf(rs, ns[0])| + SumGroupSizes(rs, ns[1..])
  }

  lemma {:induction false} SumGroupSizesSnoc(rs: seq<TestCase>, x: TestCase, ns: seq<string>)
    requires Distinct(ns)
    ensures SumGroupSizes(rs + [x], ns) == SumGroupSizes(rs, ns) + (if x.testcase.moduleName in ns then 1 else 0)
  {
    if ns != [] {
      assert (rs + [x])[..|rs|] == rs;
      assert Distinct(ns[1..]);
      SumGroupSizesSnoc(rs, x, ns[1..]);
      assert x.testcase.moduleName in ns <==> x.testcase.moduleName == ns[0] || x.testcase.moduleName in ns[1..];
      assert ns[0] !in ns[1..];
    }
  }

  /** Groups over a duplicate-free list naming every module add up to all records. */
  lemma {:induction false} SumGroupSizesAll(rs: seq<TestCase>, ns: seq<string>)
    requires Distinct(ns)
    requires forall n :: n in ModuleNames(rs) ==> n in ns
    ensures SumGroupSizes(rs, ns) == |rs|
  {
    if rs == [] {
      SumGroupSizesEmpty(ns);
    } else {
      var init, last := rs[..|rs| - 1], rs[|rs| - 1];
      SumGroupSizesAll(init, ns);
      assert init + [last] == rs;
      SumGroupSizesSnoc(init, last, ns);
    }
  }

  lemma {:induction false} SumGroupSizesEmpty(ns: seq<string>)
    ensures SumGroupSizes([], ns) == 0
  {
    if ns != [] {
      SumGroupSizesEmpty(ns[1..]);
    }
  }

  lemma {:induction false} SumTestcasesByGroup(records: seq<TestCase>, ms: seq<ModuleDict>)
    requires forall j :: 0 <= j < |ms| ==> ms[j] == ModuleToDict(Module(ms[j].name, GroupOf(records, ms[j].name)))
    ensures SumTestcases(ms) == SumGroupSizes(records, Names(ms))
    ensures SumCounts(ms) == SumTestcases(ms)
  {
    if ms != [] {
      assert Names(ms[1..]) == Names(ms)[1..];
      SumTestcasesByGroup(records, ms[1..]);
    }
  }

  /**
   * Counted over all modules, the testcases listed, and equally the
   * success/failed/error counters, add up to the number of records.
   */
  lemma TotalTestcases(records: seq<TestCase>, modules: seq<ModuleDict>)
    requires Grouped(records, modules)
    ensures SumTestcases(modules) == |records|
    ensures SumCounts(modules) == |records|
  {
    AscendingIsDistinct(Names(modules));
    SumTestcasesByGroup(records, modules);
    SumGroupSizesAll(records, Names(modules));
  }
}
