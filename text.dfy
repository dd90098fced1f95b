/** The three string operations the roster relies on: `String.prototype.trim`
    (validation), `toLowerCase` (search) and `includes` (search). */
module Text {

  /** The code points ECMAScript's `trim` strips: WhiteSpace (TAB, VT, FF,
      ZWNBSP and every space separator, category Zs) and LineTerminator
      (LF, CR, LS, PS). */
  predicate IsWhitespace(c: char) {
    c == '\t' || c == '\n' || c == '\U{0B}' || c == '\U{0C}' || c == '\r'
    || c == ' ' || c == '\U{A0}' || c == '\U{1680}'
    || ('\U{2000}' <= c <= '\U{200A}')
    || c == '\U{2028}' || c == '\U{2029}' || c == '\U{202F}' || c == '\U{205F}'
    || c == '\U{3000}' || c == '\U{FEFF}'
  }

  predicate AllWhitespace(s: string) {
    forall i | 0 <= i < |s| :: IsWhitespace(s[i])
  }

  /** Drops leading whitespace. */
  function TrimStart(s: string): string {
    if s != [] && IsWhitespace(s[0]) then TrimStart(s[1..]) else s
  }

  /** Drops trailing whitespace. */
  function TrimEnd(s: string): string {
    if s != [] && IsWhitespace(s[|s| - 1]) then TrimEnd(s[..|s| - 1]) else s
  }

  lemma {:induction false} TrimStartShape(s: string)
    ensures |TrimStart(s)| <= |s|
    ensures TrimStart(s) == s[|s| - |TrimStart(s)|..]
    ensures AllWhitespace(s[..|s| - |TrimStart(s)|])
    ensures TrimStart(s) == [] || !IsWhitespace(TrimStart(s)[0])
  {
    if s != [] && IsWhitespace(s[0]) {
      TrimStartShape(s[1..]);
      var t := TrimStart(s[1..]);
      assert s[..|s| - |t|] == [s[0]] + s[1..][..|s| - 1 - |t|];
    }
  }

  lemma {:induction false} TrimEndShape(s: string)
    ensures |TrimEnd(s)| <= |s|
    ensures TrimEnd(s) == s[..|TrimEnd(s)|]
    ensures AllWhitespace(s[|TrimEnd(s)|..])
    ensures TrimEnd(s) == [] || !IsWhitespace(TrimEnd(s)[|TrimEnd(s)| - 1])
  {
    if s != [] && IsWhitespace(s[|s| - 1]) {
      var init := s[..|s| - 1];
      TrimEndShape(init);
      var t := TrimEnd(init);
      assert s[|t|..] == init[|t|..] + [s[|s| - 1]];
    }
  }

  lemma {:induction false} TrimStartEmptyIff(s: string)
    ensures TrimStart(s) == [] <==> AllWhitespace(s)
  {
    if s != [] && IsWhitespace(s[0]) {
      TrimStartEmptyIff(s[1..]);
      assert AllWhitespace(s) <==> AllWhitespace(s[1..]) by {
        assert forall i | 1 <= i < |s| :: s[i] == s[1..][i - 1];
      }
    }
  }

  lemma {:induction false} TrimEndEmptyIff(s: string)
    ensures TrimEnd(s) == [] <==> AllWhitespace(s)
  {
    if s != [] && IsWhitespace(s[|s| - 1]) {
      TrimEndEmptyIff(s[..|s| - 1]);
      assert AllWhitespace(s) <==> AllWhitespace(s[..|s| - 1]) by {
        assert forall i | 0 <= i < |s| - 1 :: s[i] == s[..|s| - 1][i];
      }
    }
  }

  /** `s.trim()`: no longer than the input, and neither end of the result
      is whitespace. */
  function Trim(s: string): (r: string)
    ensures |r| <= |s|
    ensures r == [] || (!IsWhitespace(r[0]) && !IsWhitespace(r[|r| - 1]))
  {
    TrimStartShape(s);
    TrimEndShape(TrimStart(s));
    var t := TrimEnd(TrimStart(s));
    assert t != [] ==> t[0] == TrimStart(s)[0];
    t
  }

  /** The trimmed string is a slice of the input with only whitespace
      before and after it. */
  lemma TrimShape(s: string)
    ensures exists i | 0 <= i <= |s| - |Trim(s)| ::
      s[i..i + |Trim(s)|] == Trim(s) && AllWhitespace(s[..i]) && AllWhitespace(s[i + |Trim(s)|..])
  {
    TrimStartShape(s);
    var u := TrimStart(s);
    TrimEndShape(u);
    var t := TrimEnd(u);
    var i := |s| - |u|;
    assert s[i..i + |t|] == u[..|t|];
    assert s[i + |t|..] == u[|t|..];
  }

  /** `s.trim() === ''`: exactly when every character of `s` is whitespace,
      the empty string included. */
  predicate IsBlank(s: string)
    ensures IsBlank(s) <==> AllWhitespace(s)
  {
    TrimStartEmptyIff(s);
    TrimStartShape(s);
    TrimEndEmptyIff(TrimStart(s));
    Trim(s) == ""
  }

  /** Trimming twice trims nothing more. */
  lemma TrimIdempotent(s: string)
    ensures Trim(Trim(s)) == Trim(s)
  {
    var t := Trim(s);
    if t != [] {
      assert TrimStart(t) == t;
      assert TrimEnd(t) == t;
    }
  }

  /** `toLowerCase` on the ASCII letters: a capital becomes its small
      letter, every other character is kept. */
  function LowerChar(c: char): (r: char)
    ensures !('A' <= r <= 'Z')
    ensures 'A' <= c <= 'Z' ==> r as int - 'a' as int == c as int - 'A' as int
    ensures !('A' <= c <= 'Z') ==> r == c
  {
    if 'A' <= c <= 'Z' then (c as int + 32) as char else c
  }

  /** `s.toLowerCase()`: same length, each character lower-cased on its own. */
  function Lower(s: string): (r: string)
    ensures |r| == |s|
    ensures forall i | 0 <= i < |s| :: r[i] == LowerChar(s[i])
  {
    if s == [] then []
    else
      var r := [LowerChar(s[0])] + Lower(s[1..]);
      assert forall i | 1 <= i < |s| :: r[i] == Lower(s[1..])[i - 1] && s[i] == s[1..][i - 1];
      r
  }

  /** The lower-cased text holds no upper-case ASCII letter. */
  lemma LowerHasNoCapitals(s: string)
    ensures forall i | 0 <= i < |Lower(s)| :: !('A' <= Lower(s)[i] <= 'Z')
  {
  }

  /** Lower-casing twice is lower-casing once. */
  lemma LowerIdempotent(s: string)
    ensures Lower(Lower(s)) == Lower(s)
  {
  }

  predicate StartsWith(h: string, n: string) {
    |n| <= |h| && h[..|n|] == n
  }

  /** `h.includes(n)`: the empty string is included in everything, and
      nothing longer than `h` is included in it. */
  predicate Contains(h: string, n: string)
    ensures n == [] ==> Contains(h, n)
    ensures Contains(h, n) ==> |n| <= |h|
  {
    StartsWith(h, n) || (h != [] && Contains(h[1..], n))
  }

  /** `n` occurs in `h` starting at index `i`. */
  predicate OccursAt(h: string, n: string, i: nat) {
    i + |n| <= |h| && h[i..i + |n|] == n
  }

  /** A slice of `h` that skips the first character is a slice of its tail. */
  lemma SliceOfTail(h: string, i: nat, m: nat)
    requires 0 < i && i + m <= |h|
    ensures h[i..i + m] == h[1..][i - 1..i - 1 + m]
  {
    var a, b := h[i..i + m], h[1..][i - 1..i - 1 + m];
    forall k | 0 <= k < m ensures a[k] == b[k] {
      assert a[k] == h[i + k] && b[k] == h[i + k];
    }
  }

  /** `includes` holds exactly when `n` occurs at some position of `h`. */
  lemma {:induction false} ContainsIff(h: string, n: string)
    ensures Contains(h, n) <==> exists i: nat :: OccursAt(h, n, i)
  {
    if h == [] {
      if Contains(h, n) {
        assert OccursAt(h, n, 0);
      }
    } else {
      ContainsIff(h[1..], n);
      if Contains(h, n) {
        if StartsWith(h, n) {
          assert OccursAt(h, n, 0);
        } else {
          var i: nat :| OccursAt(h[1..], n, i);
          SliceOfTail(h, i + 1, |n|);
          assert OccursAt(h, n, i + 1);
        }
      } else {
        forall i: nat ensures !OccursAt(h, n, i) {
          if 0 < i && i + |n| <= |h| {
            SliceOfTail(h, i, |n|);
            assert !OccursAt(h[1..], n, i - 1);
          }
        }
      }
    }
  }
}
