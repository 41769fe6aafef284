/**
 The registration email pattern `^[^@\s]+@[^@\s]+\.[^@\s]+$` (no flags, so `^`
 and `$` anchor at the ends of the whole string), as a predicate on strings,
 together with two independent characterizations of it and a single-pass
 matcher proved equal to it.
 */
module EmailPattern {
  import opened JsValues

  /** A character of the class `[^@\s]`. */
  predicate Plain(c: char) {
    c != '@' && !IsJsSpace(c)
  }

  /** Every character of `t` is in `[^@\s]`. */
  predicate PlainRun(t: string) {
    forall i | 0 <= i < |t| :: Plain(t[i])
  }

  /** The pattern, read as the split a backtracking matcher searches for:
      `s == s[..a] + "@" + s[a+1..b] + "." + s[b+1..]` with all three runs
      non-empty and in `[^@\s]+`. */
  predicate Matches(s: string) {
    exists a, b | 0 < a < |s| && 0 < b < |s| ::
      && a + 1 < b < |s| - 1
      && s[a] == '@' && s[b] == '.'
      && PlainRun(s[..a]) && PlainRun(s[a + 1..b]) && PlainRun(s[b + 1..])
  }

  /** No character of `s` is in `\s`. */
  predicate NoSpace(s: string) {
    forall i | 0 <= i < |s| :: !IsJsSpace(s[i])
  }

  /** `s[a]` is the one and only '@' of `s`. */
  predicate SoleAt(s: string, a: int) {
    && 0 <= a < |s| && s[a] == '@'
    && forall i | 0 <= i < |s| && i != a :: s[i] != '@'
  }

  /** `d` has a '.' that is neither its first nor its last character. */
  predicate InteriorDot(d: string) {
    exists k | 0 < k < |d| - 1 :: d[k] == '.'
  }

  /** A local part and a domain that `l + "@" + d` joins into a matching email. */
  predicate LocalAndDomain(l: string, d: string) {
    |l| > 0 && PlainRun(l) && PlainRun(d) && InteriorDot(d)
  }

  /** The shape a left-to-right scan can check: no space, exactly one '@' and
      not at the start, and an interior '.' after it. */
  predicate ScanShape(s: string) {
    && NoSpace(s)
    && exists a | 0 < a < |s| :: SoleAt(s, a) && InteriorDot(s[a + 1..])
  }

  /** Every index other than the '@' and the '.' of a matching split holds a
      plain character. */
  lemma PlainOutsideSplit(s: string, a: int, b: int)
    requires 0 < a && a + 1 < b < |s| - 1
    requires PlainRun(s[..a]) && PlainRun(s[a + 1..b]) && PlainRun(s[b + 1..])
    ensures forall i | 0 <= i < |s| && i != a && i != b :: Plain(s[i])
  {
    forall i | 0 <= i < |s| && i != a && i != b
      ensures Plain(s[i])
    {
      if i < a {
        assert s[..a][i] == s[i];
      } else if i < b {
        assert s[a + 1..b][i - a - 1] == s[i];
      } else {
        assert s[b + 1..][i - b - 1] == s[i];
      }
    }
  }

  /** The pattern holds exactly when the string has the scan shape. */
  lemma MatchesIffScanShape(s: string)
    ensures Matches(s) <==> ScanShape(s)
  {
    if Matches(s) {
      var a, b :| 0 < a < |s| && 0 < b < |s| && a + 1 < b < |s| - 1
        && s[a] == '@' && s[b] == '.'
        && PlainRun(s[..a]) && PlainRun(s[a + 1..b]) && PlainRun(s[b + 1..]);
      PlainOutsideSplit(s, a, b);
      assert SoleAt(s, a);
      assert s[a + 1..][b - a - 1] == '.';
      assert InteriorDot(s[a + 1..]);
    }
    if ScanShape(s) {
      var a :| 0 < a < |s| && SoleAt(s, a) && InteriorDot(s[a + 1..]);
      var k :| 0 < k < |s[a + 1..]| - 1 && s[a + 1..][k] == '.';
      var b := a + 1 + k;
      assert s[b] == '.';
      var local, mid, top := s[..a], s[a + 1..b], s[b + 1..];
      forall j | 0 <= j < |local| ensures Plain(local[j]) {
        assert local[j] == s[j];
      }
      forall j | 0 <= j < |mid| ensures Plain(mid[j]) {
        assert mid[j] == s[a + 1 + j];
      }
      forall j | 0 <= j < |top| ensures Plain(top[j]) {
        assert top[j] == s[b + 1 + j];
      }
      assert 0 < a < |s| && 0 < b < |s| && a + 1 < b < |s| - 1;
    }
  }

  /** The pattern holds exactly when the string splits at an '@' into a
      non-empty local part and a domain with an interior '.', neither holding
      '@' or a space. */
  lemma MatchesIffSplit(s: string)
    ensures Matches(s) <==> exists a | 0 <= a < |s| :: s[a] == '@' && LocalAndDomain(s[..a], s[a + 1..])
  {
    MatchesIffScanShape(s);
    if Matches(s) {
      var a :| 0 < a < |s| && SoleAt(s, a) && InteriorDot(s[a + 1..]);
      var local, domain := s[..a], s[a + 1..];
      forall j | 0 <= j < |local| ensures Plain(local[j]) {
        assert local[j] == s[j];
      }
      forall j | 0 <= j < |domain| ensures Plain(domain[j]) {
        assert domain[j] == s[a + 1 + j];
      }
      assert LocalAndDomain(s[..a], s[a + 1..]);
    }
    if exists a | 0 <= a < |s| :: s[a] == '@' && LocalAndDomain(s[..a], s[a + 1..]) {
      var a :| 0 <= a < |s| && s[a] == '@' && LocalAndDomain(s[..a], s[a + 1..]);
      forall i | 0 <= i < |s| && i != a ensures Plain(s[i]) {
        if i < a {
          assert s[..a][i] == s[i];
        } else {
          assert s[a + 1..][i - a - 1] == s[i];
        }
      }
      assert SoleAt(s, a);
      assert ScanShape(s);
    }
  }

  /** Joining a valid local part and domain with '@' gives a matching email. */
  lemma JoinMatches(l: string, d: string)
    requires LocalAndDomain(l, d)
    ensures Matches(l + "@" + d)
  {
    var s := l + "@" + d;
    assert s[..|l|] == l;
    assert s[|l| + 1..] == d;
    MatchesIffSplit(s);
  }

  /** A string with a sole '@' holds the character '@' exactly once. */
  lemma SoleAtCount(s: string, a: int)
    requires SoleAt(s, a)
    ensures multiset(s)['@'] == 1
  {
    assert s == s[..a] + [s[a]] + s[a + 1..];
    var before, after := s[..a], s[a + 1..];
    assert '@' !in before by {
      forall j | 0 <= j < |before| ensures before[j] != '@' {
        assert before[j] == s[j];
      }
    }
    assert '@' !in after by {
      forall j | 0 <= j < |after| ensures after[j] != '@' {
        assert after[j] == s[a + 1 + j];
      }
    }
    calc {
      multiset(s)['@'];
      (multiset(s[..a]) + multiset([s[a]]) + multiset(s[a + 1..]))['@'];
      multiset(s[..a])['@'] + multiset([s[a]])['@'] + multiset(s[a + 1..])['@'];
      0 + 1 + 0;
    }
  }

  /** What any accepted email looks like: no space, exactly one '@', and a
      '.' strictly inside the part after the '@'. */
  lemma AcceptedShape(s: string)
    requires Matches(s)
    ensures NoSpace(s)
    ensures multiset(s)['@'] == 1
    ensures exists a | 0 < a < |s| :: SoleAt(s, a) && InteriorDot(s[a + 1..])
  {
    MatchesIffScanShape(s);
    var a :| 0 < a < |s| && SoleAt(s, a) && InteriorDot(s[a + 1..]);
    SoleAtCount(s, a);
  }

  /** A single left-to-right pass that decides the pattern. */
  method Scan(s: string) returns (ok: bool)
    ensures ok == Matches(s)
  {
    var at := -1;
    var dot := false;
    var i := 0;
    while i < |s|
      invariant 0 <= i <= |s|
      invariant forall j | 0 <= j < i :: !IsJsSpace(s[j])
      invariant -1 <= at < i
      invariant at == -1 ==> forall j | 0 <= j < i :: s[j] != '@'
      invariant at != -1 ==> 0 < at && s[at] == '@' && forall j | 0 <= j < i && j != at :: s[j] != '@'
      invariant dot <==> at != -1 && exists b | at + 1 < b < i :: b < |s| - 1 && s[b] == '.'
    {
      var c := s[i];
      if IsJsSpace(c) {
        MatchesIffScanShape(s);
        return false;
      }
      if c == '@' {
        if at != -1 || i == 0 {
          MatchesIffScanShape(s);
          return false;
        }
        at := i;
      } else if c == '.' && at != -1 && at + 1 < i < |s| - 1 {
        dot := true;
      }
      i := i + 1;
    }
    MatchesIffScanShape(s);
    ok := at != -1 && dot;
    if ok {
      var b :| at + 1 < b < |s| && b < |s| - 1 && s[b] == '.';
      assert s[at + 1..][b - at - 1] == '.';
      assert SoleAt(s, at);
    } else if at != -1 {
      var domain := s[at + 1..];
      forall k | 0 < k < |domain| - 1 ensures domain[k] != '.' {
        assert domain[k] == s[at + 1 + k];
      }
    }
  }
}
