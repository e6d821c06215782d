/** URLField's built-in pattern, `(https?|ftp|file)://` followed by one or more
    characters of a wide class and one character of a narrower class, matched
    the way `re.match` does: anchored at the start of the text only. */
module Urls {

  predicate IsAsciiAlnum(c: char)
  {
    'A' <= c <= 'Z' || 'a' <= c <= 'z' || '0' <= c <= '9'
  }

  /** `[-A-Za-z0-9+&@#/%?=~_|!:,.;]` */
  predicate InBody(c: char)
  {
    IsAsciiAlnum(c) || c in "-+&@#/%?=~_|!:,.;"
  }

  /** `[-A-Za-z0-9+&@#/%=~_|]` */
  predicate InEnd(c: char)
  {
    IsAsciiAlnum(c) || c in "-+&@#/%=~_|"
  }

  /** Some prefix of r is matched by `[body]+[end]`. */
  predicate TailMatches(r: string)
  {
    |r| >= 2 && InBody(r[0]) && (InEnd(r[1]) || TailMatches(r[1..]))
  }

  /** r opens with a non-empty run of body characters, ending just before an
      end character at index j. */
  predicate BodyThenEnd(r: string, j: int)
  {
    1 <= j < |r| && InEnd(r[j]) && forall i :: 0 <= i < j ==> InBody(r[i])
  }

  /** The regular-expression reading of TailMatches: a non-empty run of body
      characters at the start of r, followed by an end character. */
  lemma TailMatchesMeaning(r: string)
    ensures TailMatches(r) <==> exists j :: BodyThenEnd(r, j)
  {
    if TailMatches(r) {
      var j := TailMatchesWitness(r);
    }
    if exists j :: BodyThenEnd(r, j) {
      var j :| BodyThenEnd(r, j);
      TailMatchesFrom(r, j);
    }
  }

  lemma {:induction false} TailMatchesWitness(r: string) returns (j: int)
    requires TailMatches(r)
    ensures BodyThenEnd(r, j)
    decreases |r|
  {
    if InEnd(r[1]) {
      j := 1;
    } else {
      var k := TailMatchesWitness(r[1..]);
      j := k + 1;
      forall i | 0 <= i < j ensures InBody(r[i]) {
        if i > 0 { assert r[i] == r[1..][i - 1]; }
      }
    }
  }

  lemma {:induction false} TailMatchesFrom(r: string, j: int)
    requires BodyThenEnd(r, j)
    ensures TailMatches(r)
    decreases j
  {
    if j > 1 {
      assert BodyThenEnd(r[1..], j - 1) by {
        forall i | 0 <= i < j - 1 ensures InBody(r[1..][i]) {
          assert r[1..][i] == r[i + 1];
        }
      }
      TailMatchesFrom(r[1..], j - 1);
    }
  }

  predicate StartsWith(s: string, prefix: string)
  {
    |prefix| <= |s| && s[..|prefix|] == prefix
  }

  /** The schemes of the alternation, in the order `re` tries them. */
  const Schemes: seq<string> := ["https", "http", "ftp", "file"]

  /** `re.match` of the built-in URL pattern succeeds on s. */
  predicate Matches(s: string)
    ensures Matches(s) ==> |s| >= 8
  {
    exists i :: 0 <= i < |Schemes| && SchemeMatches(s, Schemes[i] + "://")
  }

  predicate SchemeMatches(s: string, prefix: string)
  {
    StartsWith(s, prefix) && TailMatches(s[|prefix|..])
  }

  lemma {:induction false} TailMatchesExtends(r: string, t: string)
    requires TailMatches(r)
    ensures TailMatches(r + t)
    decreases |r|
  {
    assert (r + t)[0] == r[0] && (r + t)[1] == r[1];
    if !InEnd(r[1]) {
      TailMatchesExtends(r[1..], t);
      assert (r + t)[1..] == r[1..] + t;
    }
  }

  lemma SchemeMatchesExtends(s: string, t: string, prefix: string)
    requires SchemeMatches(s, prefix)
    ensures SchemeMatches(s + t, prefix)
  {
    assert (s + t)[..|prefix|] == s[..|prefix|];
    assert (s + t)[|prefix|..] == s[|prefix|..] + t;
    TailMatchesExtends(s[|prefix|..], t);
  }

  /** The match is anchored at the start only: text after a matching URL
      never turns it into a non-match. */
  lemma MatchesExtends(s: string, t: string)
    requires Matches(s)
    ensures Matches(s + t)
  {
    var i :| 0 <= i < |Schemes| && SchemeMatches(s, Schemes[i] + "://");
    SchemeMatchesExtends(s, t, Schemes[i] + "://");
  }

  /** Text that does not begin with one of the four schemes and `://` never matches. */
  lemma NeedsScheme(s: string)
    requires forall i :: 0 <= i < |Schemes| ==> !StartsWith(s, Schemes[i] + "://")
    ensures !Matches(s)
  {
  }

  lemma Examples()
    ensures Matches("http://ab")
    ensures Matches("ftp://host/path?q=1")
    ensures !Matches("mailto:someone")
  {
    assert SchemeMatches("http://ab", Schemes[1] + "://");
    assert "ftp://host/path?q=1"[6..] == "host/path?q=1";
    assert SchemeMatches("ftp://host/path?q=1", Schemes[2] + "://");
    var m := "mailto:someone";
    forall i | 0 <= i < |Schemes| ensures !StartsWith(m, Schemes[i] + "://") {
      assert (Schemes[i] + "://")[0] != m[0];
    }
    NeedsScheme(m);
  }
}
