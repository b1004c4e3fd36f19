/**
 The email shape that `validateUsersData` requires of every record's `email`
 field: the anchored pattern `^[^\s@]+@[^\s@]+\.[^\s@]+$`.

 `MatchesEmailRegex` is the pattern read literally, as a decomposition of the
 string into three segments; `IsEmail` is a direct, computable
 characterisation (no whitespace, exactly one `@`, a non-empty local part and a
 `.` strictly inside the part after the `@`). `EmailRegexIff` proves the two
 agree on every string.
 */
module Email {
  import opened Strings

  /** One `[^\s@]+` run: non-empty, no whitespace, no `@`. */
  predicate IsSegment(x: string) {
    |x| > 0 && NoWhitespace(x) && '@' !in x
  }

  /** Some `.` in `r` is neither its first nor its last character. */
  predicate DotInside(r: string) {
    exists k | 0 < k < |r| - 1 :: r[k] == '.'
  }

  /** The computable characterisation of the email pattern. */
  predicate IsEmail(s: string) {
    && NoWhitespace(s)
    && var at := Find(s, '@');
       && 0 < at < |s|
       && '@' !in s[at + 1..]
       && DotInside(s[at + 1..])
  }

  /** The pattern read literally: `s` is local `@` domain `.` tld, each part a
      `[^\s@]+` run (the domain and tld may themselves contain dots, since
      the class does not exclude `.`, and backtracking may pick any dot). */
  ghost predicate MatchesEmailRegex(s: string) {
    exists local, domain, tld ::
      IsSegment(local) && IsSegment(domain) && IsSegment(tld) &&
      s == local + "@" + domain + "." + tld
  }

  /** A whitespace-free string keeps that property in every slice. */
  lemma NoWhitespaceSlice(s: string, i: int, j: int)
    requires NoWhitespace(s) && 0 <= i <= j <= |s|
    ensures NoWhitespace(s[i..j])
  {
    forall k | 0 <= k < j - i ensures !IsWhitespace(s[i..j][k]) {
      assert s[i..j][k] == s[i + k];
    }
  }

  /** Concatenation keeps strings free of whitespace. */
  lemma NoWhitespaceAppend(a: string, b: string)
    requires NoWhitespace(a) && NoWhitespace(b)
    ensures NoWhitespace(a + b)
  {
    forall k | 0 <= k < |a + b| ensures !IsWhitespace((a + b)[k]) {
      if k < |a| {
        assert (a + b)[k] == a[k];
      } else {
        assert (a + b)[k] == b[k - |a|];
      }
    }
  }

  /** Every string of the literal pattern has the computable shape. */
  lemma RegexImpliesShape(local: string, domain: string, tld: string)
    requires IsSegment(local) && IsSegment(domain) && IsSegment(tld)
    ensures IsEmail(local + "@" + domain + "." + tld)
  {
    var dot := domain + "." + tld;
    var s := local + "@" + dot;
    assert s == local + "@" + domain + "." + tld;
    assert s[|local|] == '@';
    assert Find(s, '@') == |local|;
    assert s[|local| + 1..] == dot;
    assert '@' !in dot;
    assert dot[|domain|] == '.';
    assert NoWhitespace("@") && NoWhitespace(".");
    NoWhitespaceAppend(domain, ".");
    NoWhitespaceAppend(domain + ".", tld);
    NoWhitespaceAppend(local, "@");
    NoWhitespaceAppend(local + "@", dot);
  }

  /** A non-empty slice of a string free of whitespace and `@` is a
      segment. */
  lemma SliceIsSegment(x: string, i: int, j: int)
    requires NoWhitespace(x) && '@' !in x && 0 <= i < j <= |x|
    ensures IsSegment(x[i..j])
  {
    NoWhitespaceSlice(x, i, j);
    assert forall c :: c in x[i..j] ==> c in x;
  }

  /** Three segments joined as the pattern demands witness a match. */
  lemma RegexWitness(s: string, local: string, domain: string, tld: string)
    requires IsSegment(local) && IsSegment(domain) && IsSegment(tld)
    requires s == local + ("@" + (domain + ("." + tld)))
    ensures MatchesEmailRegex(s)
  {
    assert s == local + "@" + domain + "." + tld;
  }

  /** A string is its part before index `i`, the character at `i`, and the
      part after. */
  lemma SplitAround(x: string, i: int)
    requires 0 <= i < |x|
    ensures x == x[..i] + ([x[i]] + x[i + 1..])
  {
  }

  /** Every string of the computable shape splits as the pattern demands. */
  lemma ShapeImpliesRegex(s: string)
    requires IsEmail(s)
    ensures MatchesEmailRegex(s)
  {
    var at := Find(s, '@');
    var local, rest := s[..at], s[at + 1..];
    NoWhitespaceSlice(s, 0, at);
    NoWhitespaceSlice(s, at + 1, |s|);
    var k :| 0 < k < |rest| - 1 && rest[k] == '.';
    SliceIsSegment(rest, 0, k);
    SliceIsSegment(rest, k + 1, |rest|);
    SplitAround(rest, k);
    SplitAround(s, at);
    RegexWitness(s, local, rest[..k], rest[k + 1..]);
  }

  /** "Exactly one `@`", as a count, is the same as an `@` with none after
      the first. */
  lemma {:induction false} SingleAtIff(s: string)
    ensures Count(s, '@') == 1 <==> Find(s, '@') < |s| && '@' !in s[Find(s, '@') + 1..]
    decreases |s|
  {
    if |s| > 0 {
      SingleAtIff(s[1..]);
      if s[0] == '@' {
        assert s[1..] == s[Find(s, '@') + 1..];
      } else if Find(s[1..], '@') < |s| - 1 {
        assert s[1..][Find(s[1..], '@') + 1..] == s[Find(s, '@') + 1..];
      }
    }
  }

  /** The computable predicate accepts exactly the strings of the pattern. */
  lemma EmailRegexIff(s: string)
    ensures IsEmail(s) <==> MatchesEmailRegex(s)
  {
    if IsEmail(s) {
      ShapeImpliesRegex(s);
    }
    if MatchesEmailRegex(s) {
      var local, domain, tld :|
        IsSegment(local) && IsSegment(domain) && IsSegment(tld) &&
        s == local + "@" + domain + "." + tld;
      RegexImpliesShape(local, domain, tld);
    }
  }

  /** The pattern rejects a string with whitespace anywhere, with no `@` or
      more than one, or whose part after the `@` has no inner `.`. */
  lemma EmailRegexRejects(s: string)
    ensures !NoWhitespace(s) ==> !MatchesEmailRegex(s)
    ensures Count(s, '@') != 1 ==> !MatchesEmailRegex(s)
    ensures '@' in s && !DotInside(s[Find(s, '@') + 1..]) ==> !MatchesEmailRegex(s)
  {
    EmailRegexIff(s);
    SingleAtIff(s);
  }

  /** The address shape the service returns is accepted, and the part after
      the `@` may hold several dots. */
  lemma EmailAcceptsServiceShape()
    ensures MatchesEmailRegex("george.bluth@reqres.in")
  {
    assert IsSegment("george.bluth") && IsSegment("reqres") && IsSegment("in");
    RegexWitness("george.bluth@reqres.in", "george.bluth", "reqres", "in");
  }

  lemma EmailAcceptsDottedDomain()
    ensures MatchesEmailRegex("a@b.c.d")
  {
    RegexWitness("a@b.c.d", "a", "b", "c.d");
  }

  /** The usual near-misses are rejected: whitespace, a second `@`, no `@`,
      an empty local part, a `.` only at the end or only at the start of the
      part after the `@`. */
  lemma EmailRejectsSpace()
    ensures !MatchesEmailRegex("a b@c.d")
  {
    EmailRegexRejects("a b@c.d");
    assert IsWhitespace("a b@c.d"[1]);
  }

  lemma EmailRejectsWrongAtCount()
    ensures !MatchesEmailRegex("a@b@c.d")
    ensures !MatchesEmailRegex("a.b.c")
  {
    EmailRegexRejects("a@b@c.d");
    EmailRegexRejects("a.b.c");
  }

  lemma EmailRejectsEmptyLocal()
    ensures !MatchesEmailRegex("@b.c")
  {
    EmailRegexIff("@b.c");
  }

  lemma EmailRejectsTrailingDot()
    ensures !MatchesEmailRegex("a@bc.")
  {
    EmailRegexRejects("a@bc.");
  }

  lemma EmailRejectsLeadingDot()
    ensures !MatchesEmailRegex("a@.bc")
  {
    EmailRegexRejects("a@.bc");
  }
}
