/**
 * The same-site test of `external_links()`: an unanchored `re.search` with
 * the pattern `(([a-z0-9]+).)?cfcunderwriting+(.{1}([a-z]+))`.
 *
 * The optional leading group never affects whether a search succeeds, and
 * `[a-z]+` succeeds as soon as one letter matches, so a string matches when
 * somewhere in it stand `cfcunderwritin`, one or more `g`, one character
 * other than a newline (`.` without DOTALL) and one lower-case ASCII letter.
 * `SameSitePattern` states that with an existential; `SameSite` is the
 * search procedure a backtracking matcher runs, and `SameSiteCorrect`
 * proves the two agree.
 */
module SameSite {

  const STEM: string := "cfcunderwritin"

  predicate IsLowerAscii(c: char) {
    'a' <= c <= 'z'
  }

  /**
   * From position `p`: `k` letters `g` (the `g+`), then a non-newline
   * (the `.{1}`), then a lower-case letter (the first of `[a-z]+`).
   */
  predicate TailAt(s: string, p: nat, k: nat) {
    && 1 <= k
    && p + k + 2 <= |s|
    && (forall j :: p <= j < p + k ==> s[j] == 'g')
    && s[p + k] != '\n'
    && IsLowerAscii(s[p + k + 1])
  }

  /** A match of the pattern whose `cfcunderwritin` begins at `i` and whose `g+` takes `k` letters. */
  predicate MatchAt(s: string, i: nat, k: nat) {
    && i + |STEM| <= |s|
    && s[i..i + |STEM|] == STEM
    && TailAt(s, i + |STEM|, k)
  }

  /** What `re.search(cfc_url, s)` finding a match means. */
  ghost predicate SameSitePattern(s: string) {
    exists i: nat, k: nat :: MatchAt(s, i, k)
  }

  /** Backtracking over the length of the `g+` run starting at `p`. */
  predicate TailFrom(s: string, p: nat)
    decreases |s| - p
  {
    && p < |s|
    && s[p] == 'g'
    && ((p + 2 < |s| && s[p + 1] != '\n' && IsLowerAscii(s[p + 2])) || TailFrom(s, p + 1))
  }

  /** Trying every start position from `i` on, as the unanchored search does. */
  predicate SearchFrom(s: string, i: nat)
    decreases |s| - i
  {
    && i + |STEM| <= |s|
    && ((s[i..i + |STEM|] == STEM && TailFrom(s, i + |STEM|)) || SearchFrom(s, i + 1))
  }

  /** The executable same-site test. */
  predicate SameSite(s: string) {
    SearchFrom(s, 0)
  }

  lemma {:induction false} TailFromCorrect(s: string, p: nat)
    ensures TailFrom(s, p) <==> exists k: nat :: TailAt(s, p, k)
    decreases |s| - p
  {
    if p < |s| && s[p] == 'g' {
      TailFromCorrect(s, p + 1);
      if TailFrom(s, p) {
        if p + 2 < |s| && s[p + 1] != '\n' && IsLowerAscii(s[p + 2]) {
          assert TailAt(s, p, 1);
        } else {
          var k: nat :| TailAt(s, p + 1, k);
          assert TailAt(s, p, k + 1);
        }
      } else {
        forall k: nat ensures !TailAt(s, p, k) {
          if k > 1 {
            assert !TailAt(s, p + 1, k - 1);
          }
        }
      }
    } else {
      forall k: nat ensures !TailAt(s, p, k) {
      }
    }
  }

  lemma {:induction false} SearchFromCorrect(s: string, i: nat)
    ensures SearchFrom(s, i) <==> exists i': nat, k: nat :: i <= i' && MatchAt(s, i', k)
    decreases |s| - i
  {
    if i + |STEM| <= |s| {
      SearchFromCorrect(s, i + 1);
      TailFromCorrect(s, i + |STEM|);
      if s[i..i + |STEM|] == STEM && TailFrom(s, i + |STEM|) {
        var k: nat :| TailAt(s, i + |STEM|, k);
        assert MatchAt(s, i, k);
      } else if !SearchFrom(s, i + 1) {
        forall i': nat, k: nat | i <= i' ensures !MatchAt(s, i', k) {
          if i' == i {
            assert !TailAt(s, i + |STEM|, k) || s[i..i + |STEM|] != STEM;
          }
        }
      }
    }
  }

  /** The search procedure finds a match exactly when the pattern occurs. */
  lemma SameSiteCorrect(s: string)
    ensures SameSite(s) <==> SameSitePattern(s)
  {
    SearchFromCorrect(s, 0);
  }

  /** The site's own address matches the pattern. */
  lemma HomePageIsSameSite()
    ensures SameSitePattern("https://www.cfcunderwriting.com")
  {
    var s := "https://www.cfcunderwriting.com";
    assert s[12..26] == STEM;
    assert MatchAt(s, 12, 1);
  }
}
