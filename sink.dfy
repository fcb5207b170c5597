/**
 * The report sink, class `Sink` (nosetests_json_extended/sink.py): two
 * append-only lists filled while the tests run, and `generate`, which builds
 * the report from them.
 */
module Aggregator {
  import opened Options
  import opened Records
  import opened SyntaxErrors
  import opened Grouping

  /**
   * `{command, time, cwd}`: the command line, the clock and the working
   * directory, captured by the caller at generation time and passed in.
   */
  datatype Metadata = Metadata(command: string, time: real, cwd: string)

  /** `{metadata, syntaxerrors, modules}`: the document `generate` returns. */
  datatype Report = Report(metadata: Metadata, syntaxerrors: seq<SyntaxDict>, modules: seq<ModuleDict>)

  class Sink {
    var records: seq<TestCase>
    var syntaxerrors: seq<Syntax>
    var outputFile: string

    constructor ()
      ensures records == [] && syntaxerrors == [] && outputFile == "nosetests.json"
    {
      records := [];
      syntaxerrors := [];
      outputFile := "nosetests.json";
    }

    /** `add`: one more outcome, at the end; the syntax errors are untouched. */
    method Add(result: Outcome, testcase: TestCaseDescription, error: Option<ErrorDescription>)
      modifies this
      ensures records == old(records) + [TestCase(result, testcase, error)]
      ensures syntaxerrors == old(syntaxerrors) && outputFile == old(outputFile)
    {
      records := records + [TestCase(result, testcase, error)];
    }

    /** `add_syntaxerror`: one more formatted syntax error, at the end; the outcomes are untouched. */
    method AddSyntaxError(error: SyntaxErrorInfo)
      modifies this
      ensures syntaxerrors == old(syntaxerrors) + [NewSyntax(error)]
      ensures records == old(records) && outputFile == old(outputFile)
    {
      syntaxerrors := syntaxerrors + [NewSyntax(error)];
    }

    /**
     * The scan at the start of `generate`: one pass over the records that
     * creates a module on first sight of its name and appends each record to
     * its module. `order` is the dict's insertion order.
     */
    method GroupByModule() returns (modules: map<string, Module>, order: seq<string>)
      ensures modules == Scanned(records)
      ensures forall n :: n in order <==> n in modules
      ensures Distinct(order)
    {
      modules, order := map[], [];
      for i := 0 to |records|
        invariant modules == Scanned(records[..i])
        invariant forall n :: n in order <==> n in modules
        invariant Distinct(order)
      {
        var record := records[i];
        var moduleName := record.testcase.moduleName;
        assert records[..i + 1] == records[..i] + [record];
        ScanOneMore(records[..i], record);
        if moduleName !in modules {
          modules := modules[moduleName := Module(moduleName, [])];
          order := order + [moduleName];
        }
        var entry := modules[moduleName];
        modules := modules[moduleName := Module(entry.name, entry.testcases + [record])];
      }
      assert records[..|records|] == records;
    }

    /**
     * `generate`: group the records by module, convert each module to its
     * dict, sort those by name, and convert the syntax errors in arrival order.
     * It changes nothing in the sink.
     */
    method Generate(metadata: Metadata) returns (report: Report)
      ensures report.metadata == metadata
      ensures |report.syntaxerrors| == |syntaxerrors|
      ensures forall i :: 0 <= i < |syntaxerrors| ==> report.syntaxerrors[i] == SyntaxToDict(syntaxerrors[i])
      ensures Grouped(records, report.modules)
    {
      var modules, order := GroupByModule();
      SortedModulesAreGrouped(records, modules, order);
      var modulesOut := SortByName(ModuleDicts(records, modules, order));
      var stored := syntaxerrors;
      var syntaxOut := seq(|stored|, k requires 0 <= k < |stored| => SyntaxToDict(stored[k]));
      report := Report(metadata, syntaxOut, modulesOut);
    }
  }

  /**
   * `map(lambda m: m.to_dict(), modules.values())` on the scanned dict, the
   * values taken in insertion order: the dict of each module, named in that
   * order, holding that module's records in arrival order.
   */
  function ModuleDicts(ghost records: seq<TestCase>, modules: map<string, Module>, order: seq<string>)
    : (ds: seq<ModuleDict>)
    requires modules == Scanned(records)
    requires forall n :: n in order ==> n in modules
    ensures Names(ds) == order
    ensures forall k :: 0 <= k < |order| ==> ds[k] == ModuleToDict(Module(order[k], GroupOf(records, order[k])))
  {
    seq(|order|, k requires 0 <= k < |order| => ModuleToDict(modules[order[k]]))
  }

  /**
   * Once the scan has grouped every record, converting the groups (in any
   * order without repeats) and sorting them by name gives what `generate` promises.
   */
  lemma SortedModulesAreGrouped(records: seq<TestCase>, modules: map<string, Module>, order: seq<string>)
    requires modules == Scanned(records)
    requires forall n :: n in order <==> n in modules
    requires Distinct(order)
    ensures Grouped(records, SortByName(ModuleDicts(records, modules, order)))
  {
    var unsorted := ModuleDicts(records, modules, order);
    var sorted := SortByName(unsorted);
    SortedEntriesAreGroups(records, unsorted, sorted);
    SortedNamesAreModules(records, order, unsorted, sorted);
  }

  lemma SortedEntriesAreGroups(records: seq<TestCase>, unsorted: seq<ModuleDict>, sorted: seq<ModuleDict>)
    requires forall k :: 0 <= k < |unsorted| ==>
               unsorted[k] == ModuleToDict(Module(unsorted[k].name, GroupOf(records, unsorted[k].name)))
    requires multiset(sorted) == multiset(unsorted)
    ensures forall j :: 0 <= j < |sorted| ==>
              sorted[j] == ModuleToDict(Module(sorted[j].name, GroupOf(records, sorted[j].name)))
  {
    forall j | 0 <= j < |sorted|
      ensures sorted[j] == ModuleToDict(Module(sorted[j].name, GroupOf(records, sorted[j].name)))
    {
      assert sorted[j] in multiset(unsorted);
    }
  }

  lemma SortedNamesAreModules(records: seq<TestCase>, order: seq<string>, unsorted: seq<ModuleDict>,
                              sorted: seq<ModuleDict>)
    requires forall n :: n in order <==> n in ModuleNames(records)
    requires Names(unsorted) == order
    requires multiset(sorted) == multiset(unsorted)
    ensures forall n :: n in Names(sorted) <==> n in ModuleNames(records)
  {
    forall n ensures n in Names(sorted) <==> n in order {
      if n in Names(sorted) {
        var j :| 0 <= j < |sorted| && Names(sorted)[j] == n;
        assert sorted[j] in multiset(unsorted);
        var k :| 0 <= k < |unsorted| && unsorted[k] == sorted[j];
        assert Names(unsorted)[k] == n;
      }
      if n in order {
        var k :| 0 <= k < |order| && order[k] == n;
        assert unsorted[k] in multiset(sorted);
        var j :| 0 <= j < |sorted| && sorted[j] == unsorted[k];
        assert Names(sorted)[j] == n;
      }
    }
  }
}
