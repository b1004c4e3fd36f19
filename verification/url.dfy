/**
 The avatar shape that `validateUsersData` requires of every record's `avatar`
 field. The suite's pattern is

   https?:\/\/(www\.)?[-a-zA-Z0-9@:%._\+~#=]{1,256}\.[a-zA-Z0-9()]{1,6}\b([-a-zA-Z0-9()@:%_\+.~#?&//=]*)

 with no anchors, so a match may start anywhere in the string. This module
 keeps the parts that decide acceptance in the common case: a scheme
 `http://` or `https://`, then a run of host characters, a `.`, and an
 extension character. It drops the repetition bounds, the word boundary and
 the trailing path group (which may match the empty string); since `www.` is
 itself a run of host characters, the optional `(www\.)?` group adds nothing
 once the bounds are gone. `IsUrl` therefore accepts every string the pattern
 matches, and also some that only the dropped bounds or boundary would reject.
 */
module Url {
  import opened Strings

  /** The class `[-a-zA-Z0-9@:%._\+~#=]`. */
  predicate IsHostChar(c: char) {
    IsAsciiLetterOrDigit(c) || c in "-@:%._+~#="
  }

  /** The class `[a-zA-Z0-9()]`. */
  predicate IsExtChar(c: char) {
    IsAsciiLetterOrDigit(c) || c == '(' || c == ')'
  }

  predicate AllHost(x: string) {
    forall j :: 0 <= j < |x| ==> IsHostChar(x[j])
  }

  /** `r` begins with one or more host characters, a `.`, and an extension
      character. */
  predicate HostDotExt(r: string) {
    exists k | 1 <= k < |r| - 1 :: r[k] == '.' && IsExtChar(r[k + 1]) && AllHost(r[..k])
  }

  const Http: string := "http://"
  const Https: string := "https://"

  /** A match of the simplified pattern starts at index `i` of `s`. */
  predicate MatchAt(s: string, i: int)
    requires 0 <= i <= |s|
  {
    || (StartsWith(s[i..], Http) && HostDotExt(s[i + |Http|..]))
    || (StartsWith(s[i..], Https) && HostDotExt(s[i + |Https|..]))
  }

  /** The simplified pattern matches somewhere in `s`. */
  predicate IsUrl(s: string) {
    exists i | 0 <= i <= |s| :: MatchAt(s, i)
  }

  /** Extending a string on the right keeps a host, dot and extension at its
      start. */
  lemma HostDotExtAppend(r: string, q: string)
    requires HostDotExt(r)
    ensures HostDotExt(r + q)
  {
    var k :| 1 <= k < |r| - 1 && r[k] == '.' && IsExtChar(r[k + 1]) && AllHost(r[..k]);
    assert (r + q)[..k] == r[..k];
    assert (r + q)[k] == r[k] && (r + q)[k + 1] == r[k + 1];
  }

  /** A match inside `t` stays a match, shifted, inside `p + t + q`. */
  lemma MatchAtShift(p: string, t: string, q: string, i: int)
    requires 0 <= i <= |t| && MatchAt(t, i)
    ensures MatchAt(p + t + q, |p| + i)
  {
    var s := p + t + q;
    assert s[|p| + i..] == t[i..] + q;
    var scheme := if StartsWith(t[i..], Http) && HostDotExt(t[i + |Http|..]) then Http else Https;
    assert StartsWith(t[i..], scheme) && HostDotExt(t[i + |scheme|..]);
    assert (t[i..] + q)[..|scheme|] == t[i..][..|scheme|];
    assert s[|p| + i + |scheme|..] == t[i + |scheme|..] + q;
    HostDotExtAppend(t[i + |scheme|..], q);
  }

  /** The pattern is unanchored: text before or after a match never stops it
      from matching. */
  lemma UrlUnanchored(p: string, t: string, q: string)
    requires IsUrl(t)
    ensures IsUrl(p + t + q)
  {
    var i :| 0 <= i <= |t| && MatchAt(t, i);
    MatchAtShift(p, t, q, i);
  }

  /** Every accepted string contains `http://` or `https://`. */
  lemma UrlNeedsScheme(s: string)
    requires IsUrl(s)
    ensures Occurs(s, Http) || Occurs(s, Https)
  {
    var i :| 0 <= i <= |s| && MatchAt(s, i);
    if StartsWith(s[i..], Http) {
      assert s[i..][..|Http|] == s[i..i + |Http|];
      assert OccursAt(s, Http, i);
    } else {
      assert s[i..][..|Https|] == s[i..i + |Https|];
      assert OccursAt(s, Https, i);
    }
  }

  /** A scheme, a host, a `.` and an extension-led rest form a match. */
  lemma HttpsHostMatches(host: string, rest: string)
    requires |host| > 0 && AllHost(host) && |rest| > 0 && IsExtChar(rest[0])
    ensures IsUrl(Https + host + "." + rest)
  {
    var r := host + "." + rest;
    var s := Https + r;
    assert s == Https + host + "." + rest;
    assert r[..|host|] == host && r[|host|] == '.' && r[|host| + 1] == rest[0];
    assert HostDotExt(r);
    assert s[..|Https|] == Https && s[|Https|..] == r;
    assert MatchAt(s, 0);
  }

  /** The avatar address the service returns,
      `https://reqres.in/img/faces/1-image.jpg`, is accepted. */
  lemma UrlAcceptsServiceAvatar()
    ensures IsUrl(Https + "reqres" + "." + "in/img/faces/1-image.jpg")
  {
    assert AllHost("reqres");
    HttpsHostMatches("reqres", "in/img/faces/1-image.jpg");
  }

  /** Every match starts at an `h`. */
  lemma MatchStartsWithH(s: string, i: int)
    requires 0 <= i <= |s| && MatchAt(s, i)
    ensures i < |s| && s[i] == 'h'
  {
    assert s[i..][0] == 'h';
  }

  /** A host without a dot, and a scheme other than http(s), are rejected. */
  lemma UrlRejectsSamples()
    ensures !IsUrl("https://reqres")
    ensures !IsUrl("ftp://reqres.in/a.jpg")
  {
    var s := "https://reqres";
    assert 'h' !in s[1..];
    forall i | 0 <= i <= |s| ensures !MatchAt(s, i) {
      if MatchAt(s, i) {
        MatchStartsWithH(s, i);
      }
    }
    var f := "ftp://reqres.in/a.jpg";
    assert 'h' !in f;
    forall i | 0 <= i <= |f| ensures !MatchAt(f, i) {
      if MatchAt(f, i) {
        MatchStartsWithH(f, i);
      }
    }
  }

  /** A string with neither scheme in it is rejected. */
  lemma NoSchemeNoUrl(s: string)
    requires !Occurs(s, Http) && !Occurs(s, Https)
    ensures !IsUrl(s)
  {
    if IsUrl(s) {
      UrlNeedsScheme(s);
    }
  }
}
