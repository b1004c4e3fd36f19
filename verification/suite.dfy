/**
 The seven scenarios of the list-users suite, against the reference
 pagination of the service. Each scenario sends one query and expects an
 echoed `per_page`, an echoed `page` and a number of records; all but the
 last also validate every returned record.

 The suite keeps the service's `total` in a variable that the first two
 scenarios write and the last three read. Here it is an explicit value:
 `CapturedTotal` is the `total` of the second scenario's response (the last
 write before it is read), and the scenario list is a function of it.
 */
module Suite {
  import opened Optional
  import opened Pagination
  import opened Users

  /** What one scenario asserts about its response. */
  datatype Expectation = Expectation(perPage: int, page: int, count: int, validates: bool)

  datatype Scenario = Scenario(query: PageQuery, expected: Expectation)

  /** The `total` the suite captures and reuses. */
  function CapturedTotal(users: seq<UserRecord>): (total: nat)
    ensures total == |users|
  {
    Serve(users, PageQuery(Some(1), None)).total
  }

  /** The scenarios in source order, for a captured total `total`. */
  function Scenarios(total: int): (s: seq<Scenario>)
    ensures |s| == 7
    ensures forall i :: 0 <= i < |s| ==> (s[i].expected.validates <==> i < 6)
  {
    [ Scenario(NoParams, Expectation(6, 1, 6, true)),
      Scenario(PageQuery(Some(1), None), Expectation(6, 1, 6, true)),
      Scenario(PageQuery(None, Some(10)), Expectation(10, 1, 10, true)),
      Scenario(PageQuery(Some(2), None), Expectation(6, 2, 6, true)),
      Scenario(PageQuery(None, Some(total)), Expectation(total, 1, total, true)),
      Scenario(PageQuery(None, Some(total + 1)), Expectation(total + 1, 1, total, true)),
      Scenario(PageQuery(Some(2), Some(total)), Expectation(total, 2, 0, false)) ]
  }

  /** A response meets an expectation: the three equalities hold and, when
      the scenario validates, every record passes validation. */
  predicate Meets(r: PageResponse<UserRecord>, e: Expectation) {
    && r.perPage == e.perPage
    && r.page == e.page
    && |r.data| == e.count
    && (e.validates ==> AllValid(r.data))
  }

  /** Whether each scenario passes against a service holding `users`. */
  function RunSuite(users: seq<UserRecord>): (outcomes: seq<bool>)
    ensures |outcomes| == 7
  {
    var scenarios := Scenarios(CapturedTotal(users));
    seq(|scenarios|, i requires 0 <= i < |scenarios| =>
      Meets(Serve(users, scenarios[i].query), scenarios[i].expected))
  }

  predicate AllPass(outcomes: seq<bool>) {
    forall i :: 0 <= i < |outcomes| ==> outcomes[i]
  }

  /** No parameters: the first page of six. */
  lemma NoParamsScenario(users: seq<UserRecord>)
    requires |users| >= 6
    ensures var r := Serve(users, NoParams);
      r.perPage == 6 && r.page == 1 && r.data == users[..6]
  {
  }

  /** An explicit `page=1` gets the same response as no parameters, for any
      collection. */
  lemma ExplicitFirstPageScenario(users: seq<UserRecord>)
    ensures Serve(users, PageQuery(Some(1), None)) == Serve(users, NoParams)
  {
  }

  /** `per_page=10`: the first ten records. */
  lemma PerPageTenScenario(users: seq<UserRecord>)
    requires |users| >= 10
    ensures var r := Serve(users, PageQuery(None, Some(10)));
      r.perPage == 10 && r.page == 1 && r.data == users[..10]
  {
  }

  /** `page=2`: records seven to twelve. */
  lemma SecondPageScenario(users: seq<UserRecord>)
    requires |users| >= 12
    ensures var r := Serve(users, PageQuery(Some(2), None));
      r.perPage == 6 && r.page == 2 && r.data == users[6..12]
  {
  }

  /** `per_page` at least the total, on page 1: the echoed `per_page` is the
      requested one, never clamped, while the records are clamped to the
      whole collection. Covers `per_page=total` and `per_page=total+1`. */
  lemma PerPageAtLeastTotalScenario(users: seq<UserRecord>, perPage: int)
    requires perPage >= 1 && perPage >= |users|
    ensures var r := Serve(users, PageQuery(None, Some(perPage)));
      r.perPage == perPage && r.page == 1 && r.data == users
  {
  }

  /** `per_page=total&page=2`: a page past the end is empty, not an error,
      and still echoes both parameters. */
  lemma PastEndScenario(users: seq<UserRecord>)
    requires |users| >= 1
    ensures var r := Serve(users, PageQuery(Some(2), Some(|users|)));
      r.perPage == |users| && r.page == 2 && r.data == []
  {
  }

  /** The whole suite passes exactly when the service holds at least twelve
      records and every record is valid. */
  lemma SuitePassesIff(users: seq<UserRecord>)
    ensures AllPass(RunSuite(users)) <==> |users| >= 12 && AllValid(users)
  {
    var outcomes := RunSuite(users);
    var total := CapturedTotal(users);
    var scenarios := Scenarios(total);
    assert |outcomes| == 7;
    if AllPass(outcomes) {
      assert outcomes[3];
      var second := Serve(users, scenarios[3].query);
      assert |second.data| == 6;
      assert |users| >= 12;
      assert outcomes[4];
      PerPageAtLeastTotalScenario(users, total);
      assert AllValid(users);
    }
    if |users| >= 12 && AllValid(users) {
      forall i | 0 <= i < 7 ensures outcomes[i] {
        var r := Serve(users, scenarios[i].query);
        assert 0 < r.page;
        if i == 0 {
          NoParamsScenario(users);
          AllValidSlice(users, 0, 6);
        } else if i == 1 {
          NoParamsScenario(users);
          AllValidSlice(users, 0, 6);
        } else if i == 2 {
          PerPageTenScenario(users);
          AllValidSlice(users, 0, 10);
        } else if i == 3 {
          SecondPageScenario(users);
          AllValidSlice(users, 6, 12);
        } else if i == 4 {
          PerPageAtLeastTotalScenario(users, total);
        } else if i == 5 {
          PerPageAtLeastTotalScenario(users, total + 1);
        } else {
          PastEndScenario(users);
        }
      }
    }
  }
}
