/**
 The per-record checks of `validateUsersData`. A record is a JSON object: a
 map from field names to JSON values. For each record, in order, the suite
 expects `id` to be defined, `email` to match the email pattern, `first_name`
 and `last_name` to be defined, and `avatar` to match the URL pattern; the
 first expectation that fails ends the validation with a failure.

 "Defined" is Jest's `toBeDefined`: the field is present (a JSON `null` is a
 defined value). "Matches" is Jest's `toMatch`, which fails for any value that
 is not a string.
 */
module Users {
  import opened Strings
  import Email
  import Url
  import opened Optional

  /** A JSON value. Numbers are kept as integers; the checks never look
      inside arrays or objects, so those are one opaque case. */
  datatype Value = Null | Bool(b: bool) | Num(n: int) | Str(s: string) | Compound

  datatype UserRecord = UserRecord(fields: map<string, Value>)

  /** The five expectations, in the order the suite states them. */
  datatype Check = IdDefined | EmailMatches | FirstNameDefined | LastNameDefined | AvatarMatches

  /** Position of a check in the order the suite applies them. */
  function Rank(c: Check): nat {
    match c
    case IdDefined => 0
    case EmailMatches => 1
    case FirstNameDefined => 2
    case LastNameDefined => 3
    case AvatarMatches => 4
  }

  predicate Defined(u: UserRecord, key: string) {
    key in u.fields
  }

  predicate EmailOk(u: UserRecord) {
    "email" in u.fields && u.fields["email"].Str? && Email.IsEmail(u.fields["email"].s)
  }

  predicate AvatarOk(u: UserRecord) {
    "avatar" in u.fields && u.fields["avatar"].Str? && Url.IsUrl(u.fields["avatar"].s)
  }

  predicate Holds(u: UserRecord, c: Check) {
    match c
    case IdDefined => Defined(u, "id")
    case EmailMatches => EmailOk(u)
    case FirstNameDefined => Defined(u, "first_name")
    case LastNameDefined => Defined(u, "last_name")
    case AvatarMatches => AvatarOk(u)
  }

  /** A record passes when all five expectations hold. */
  predicate IsValidUser(u: UserRecord) {
    && Defined(u, "id")
    && EmailOk(u)
    && Defined(u, "first_name")
    && Defined(u, "last_name")
    && AvatarOk(u)
  }

  /** A list passes when every record in it passes. */
  predicate AllValid(users: seq<UserRecord>) {
    forall i :: 0 <= i < |users| ==> IsValidUser(users[i])
  }

  /** The first expectation a record fails, if any. */
  function FirstFailure(u: UserRecord): (r: Option<Check>)
    ensures r.None? <==> IsValidUser(u)
    ensures r.Some? ==> !Holds(u, r.value)
    ensures r.Some? ==> forall c :: Rank(c) < Rank(r.value) ==> Holds(u, c)
  {
    if !Defined(u, "id") then Some(IdDefined)
    else if !EmailOk(u) then Some(EmailMatches)
    else if !Defined(u, "first_name") then Some(FirstNameDefined)
    else if !Defined(u, "last_name") then Some(LastNameDefined)
    else if !AvatarOk(u) then Some(AvatarMatches)
    else None
  }

  /** Outcome of validating a list: every record passed, or the index of the
      first failing record and the expectation it failed. */
  datatype Verdict = Passed | Failed(index: nat, check: Check)

  /** `validateUsersData`: check the records in order and stop at the first
      failed expectation. */
  method ValidateUsersData(users: seq<UserRecord>) returns (v: Verdict)
    ensures v.Passed? <==> AllValid(users)
    ensures v.Failed? ==> v.index < |users| && AllValid(users[..v.index])
    ensures v.Failed? ==> FirstFailure(users[v.index]) == Some(v.check)
  {
    var i := 0;
    while i < |users|
      invariant 0 <= i <= |users|
      invariant AllValid(users[..i])
    {
      var failure := FirstFailure(users[i]);
      if failure.Some? {
        return Failed(i, failure.value);
      }
      assert users[..i + 1] == users[..i] + [users[i]];
      i := i + 1;
    }
    assert users[..i] == users;
    return Passed;
  }

  /** Validation is a conjunction over the list: it splits over
      concatenation. */
  lemma {:induction false} AllValidAppend(a: seq<UserRecord>, b: seq<UserRecord>)
    ensures AllValid(a + b) <==> AllValid(a) && AllValid(b)
  {
    if AllValid(a + b) {
      forall i | 0 <= i < |a| ensures IsValidUser(a[i]) {
        assert a[i] == (a + b)[i];
      }
      forall i | 0 <= i < |b| ensures IsValidUser(b[i]) {
        assert b[i] == (a + b)[|a| + i];
      }
    }
  }

  /** Every contiguous part of a valid list is valid. */
  lemma AllValidSlice(users: seq<UserRecord>, lo: int, hi: int)
    requires AllValid(users) && 0 <= lo <= hi <= |users|
    ensures AllValid(users[lo..hi])
  {
    forall i | 0 <= i < hi - lo ensures IsValidUser(users[lo..hi][i]) {
      assert users[lo..hi][i] == users[lo + i];
    }
  }

  /** Validity reads only the five checked fields: setting any other field
      to any value leaves it unchanged. */
  lemma ValidityIgnoresOtherFields(u: UserRecord, key: string, value: Value)
    requires key !in ["id", "email", "first_name", "last_name", "avatar"]
    ensures IsValidUser(UserRecord(u.fields[key := value])) <==> IsValidUser(u)
  {
    assert key != "id" && key != "email" && key != "first_name";
    assert key != "last_name" && key != "avatar";
  }
}
