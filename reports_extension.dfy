/** The loans plugin's link to the reports plugin: when a plugin named "reports" is enabled,
    each report the loans plugin ships is saved into the reports repository. */
module ReportsExtension {
  import opened Wrappers
  import opened Reports
  import PluginActivation

  /** The id of the plugin whose presence switches the registration on. */
  const ReportsPluginId: string := "reports"

  /** The class names of the reports to register, in registration order. */
  const ReportClasses: seq<string> := ["br.edu.ifba.inf008.plugins.loans.application.extensions.reports.LoanedBooksReport"]

  /** What a `LoanedBooksReport` instance reports about itself. */
  const LoanedBooksReport: Report := Report("loaned-books-report", "Loaned Books Report")

  /** The message of the `RuntimeException` every failure is wrapped in. */
  const NotAvailable: string := "Reports plugin is not installed or not available."

  /** Saving the reports of `classes` in turn into `m`; `instantiate` says what instantiating
      each class yields (`None` when loading or constructing it throws). The first failure
      stops the loop, keeping what was saved before it. */
  function Registration(classes: seq<string>, instantiate: string -> Option<Report>, m: map<string, Report>)
    : (r: (Outcome<string>, map<string, Report>))
    ensures r.0.Fail? <==> exists i :: 0 <= i < |classes| && instantiate(classes[i]).None?
    ensures r.0.Fail? ==> r.0.error == NotAvailable
  {
    if classes == [] then (Pass, m)
    else match instantiate(classes[0])
      case None => (Fail(NotAvailable), m)
      case Some(report) =>
        var rest := Registration(classes[1..], instantiate, Stored(m, report));
        assert forall i :: 0 <= i < |classes[1..]| ==> classes[1..][i] == classes[i + 1];
        rest
  }

  /** A report instantiated before the first failure stays saved, unless a later report of
      the same id replaced it. */
  lemma {:induction false} SavedBeforeFailureStays(classes: seq<string>, instantiate: string -> Option<Report>,
                                                   m: map<string, Report>, k: nat)
    requires k < |classes| && instantiate(classes[k]).Some?
    requires forall i :: 0 <= i <= k ==> instantiate(classes[i]).Some?
    requires forall i :: k < i < |classes| && instantiate(classes[i]).Some? ==>
               instantiate(classes[i]).value.id != instantiate(classes[k]).value.id
    ensures var report := instantiate(classes[k]).value;
            report.id in Registration(classes, instantiate, m).1 &&
            Registration(classes, instantiate, m).1[report.id] == report
  {
    var report := instantiate(classes[0]).value;
    var tail := classes[1..];
    if k == 0 {
      SavedKept(tail, instantiate, Stored(m, report), report);
    } else {
      forall i | 0 <= i <= k - 1 ensures instantiate(tail[i]).Some? { assert tail[i] == classes[i + 1]; }
      forall i | k - 1 < i < |tail| && instantiate(tail[i]).Some?
        ensures instantiate(tail[i]).value.id != instantiate(tail[k - 1]).value.id
      {
        assert tail[i] == classes[i + 1];
      }
      SavedBeforeFailureStays(tail, instantiate, Stored(m, report), k - 1);
    }
  }

  /** An entry no later report overwrites survives the rest of the registration. */
  lemma {:induction false} SavedKept(classes: seq<string>, instantiate: string -> Option<Report>,
                                     m: map<string, Report>, report: Report)
    requires report.id in m && m[report.id] == report
    requires forall i :: 0 <= i < |classes| && instantiate(classes[i]).Some? ==> instantiate(classes[i]).value.id != report.id
    ensures report.id in Registration(classes, instantiate, m).1 && Registration(classes, instantiate, m).1[report.id] == report
  {
    if classes != [] && instantiate(classes[0]).Some? {
      var next := instantiate(classes[0]).value;
      forall i | 0 <= i < |classes[1..]| && instantiate(classes[1..][i]).Some?
        ensures instantiate(classes[1..][i]).value.id != report.id
      {
        assert classes[1..][i] == classes[i + 1];
      }
      SavedKept(classes[1..], instantiate, Stored(m, next), report);
    }
  }

  /** Registration never removes anything already in the repository except by replacing an
      entry of the same id. */
  lemma {:induction false} RegistrationOnlyAdds(classes: seq<string>, instantiate: string -> Option<Report>, m: map<string, Report>)
    ensures m.Keys <= Registration(classes, instantiate, m).1.Keys
    ensures KeyedById(m) ==> KeyedById(Registration(classes, instantiate, m).1)
  {
    if classes != [] && instantiate(classes[0]).Some? {
      RegistrationOnlyAdds(classes[1..], instantiate, Stored(m, instantiate(classes[0]).value));
    }
  }

  /** `ReportsExtension.initialize()`. `reportsReachable` says whether the repository class and
      its `getInstance`/`save` methods can be found reflectively; the repository reached is
      the single shared instance. */
  method Initialize(controller: PluginActivation.PluginController, repository: ReportsRepository,
                    reportsReachable: bool, instantiate: string -> Option<Report>)
    returns (r: Outcome<string>)
    requires repository.Valid()
    modifies repository
    ensures repository.Valid()
    ensures ReportsPluginId !in controller.enabledPlugins ==> r == Pass && repository.delegate == old(repository.delegate)
    ensures ReportsPluginId in controller.enabledPlugins && !reportsReachable ==>
              r == Fail(NotAvailable) && repository.delegate == old(repository.delegate)
    ensures ReportsPluginId in controller.enabledPlugins && reportsReachable ==>
              (r, repository.delegate) == Registration(ReportClasses, instantiate, old(repository.delegate))
  {
    var enabled := controller.IsPluginEnabled(ReportsPluginId);
    if !enabled {
      return Pass;
    }
    if !reportsReachable {
      return Fail(NotAvailable);
    }
    var i := 0;
    while i < |ReportClasses|
      invariant 0 <= i <= |ReportClasses|
      invariant repository.Valid()
      invariant Registration(ReportClasses[i..], instantiate, repository.delegate)
             == Registration(ReportClasses, instantiate, old(repository.delegate))
    {
      var instance := instantiate(ReportClasses[i]);
      if instance.None? {
        return Fail(NotAvailable);
      }
      assert ReportClasses[i..][1..] == ReportClasses[i + 1..];
      var _ := repository.Save(instance.value);
      i := i + 1;
    }
    return Pass;
  }

  /** With the reports plugin enabled and reachable, and the report class loadable, the
      loaned-books report is found under its id afterwards, replacing any earlier entry. */
  lemma LoanedBooksReportRegistered(instantiate: string -> Option<Report>, m: map<string, Report>)
    requires instantiate(ReportClasses[0]) == Some(LoanedBooksReport)
    ensures Registration(ReportClasses, instantiate, m).0 == Pass
    ensures Registration(ReportClasses, instantiate, m).1 == m[LoanedBooksReport.id := LoanedBooksReport]
  {
    assert ReportClasses[1..] == [];
  }
}
