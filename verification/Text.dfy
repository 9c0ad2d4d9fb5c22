/** Strings as several modules use them: JavaScript's operations, and lists of strings. */
module Text {

  ghost predicate Distinct(s: seq<string>) { forall i, j :: 0 <= i < j < |s| ==> s[i] != s[j] }

  lemma Associative<T>(a: seq<T>, b: seq<T>, c: seq<T>)
    ensures (a + b) + c == a + (b + c)
  {
  }

  lemma Rejoin<T>(s: seq<T>, k: nat)
    requires k <= |s|
    ensures s == s[..k] + s[k..]
  {
  }

  /** Cutting a joined sequence where it was joined. */
  lemma CutAt<T>(a: seq<T>, b: seq<T>)
    ensures (a + b)[..|a|] == a && (b != [] ==> (a + b)[|a| + 1..] == b[1..])
  {
  }

  /** `indexOf`, the length when there is none. */
  function IndexOf(s: string, c: char): (i: nat)
    ensures i <= |s| && c !in s[..i] && (i < |s| ==> s[i] == c)
  {
    if s == "" || s[0] == c then 0 else 1 + IndexOf(s[1..], c)
  }

  lemma {:induction false} IndexOfSuffix(s: string, c: char, t: string)
    requires c !in s && (t == "" || t[0] == c)
    ensures IndexOf(s + t, c) == |s|
  {
    if s == "" {
      assert s + t == t;
    } else {
      assert (s + t)[1..] == s[1..] + t;
      IndexOfSuffix(s[1..], c, t);
    }
  }

  /** What `trim` and `parseInt` treat as blank. */
  predicate IsWhite(c: char) {
    '\t' <= c <= '\r' || c == ' ' || c == '\U{00A0}' || c == '\U{1680}' || '\U{2000}' <= c <= '\U{200A}' ||
    c in ['\U{2028}', '\U{2029}', '\U{202F}', '\U{205F}', '\U{3000}', '\U{FEFF}']
  }

  function TrimStart(s: string): (r: string)
    ensures |r| <= |s| && r == s[|s| - |r|..] && (r != "" ==> !IsWhite(r[0]))
    ensures forall i :: 0 <= i < |s| - |r| ==> IsWhite(s[i])
  {
    if s != "" && IsWhite(s[0]) then TrimStart(s[1..]) else s
  }

  lemma {:induction false} NothingToTrim(s: string)
    requires s != "" && !IsWhite(s[0])
    ensures TrimStart(s) == s
  {
  }

  function TrimEnd(s: string): (r: string)
    ensures |r| <= |s| && r == s[..|r|] && (r != "" ==> !IsWhite(r[|r| - 1]))
    ensures forall i :: |r| <= i < |s| ==> IsWhite(s[i])
  {
    if s != "" && IsWhite(s[|s| - 1]) then TrimEnd(s[..|s| - 1]) else s
  }

  function Trim(s: string): string { TrimEnd(TrimStart(s)) }

  /** `toLowerCase`, as far as a comparison with an ASCII text can tell: besides A to Z only the
    * Kelvin sign becomes an ASCII letter.
    */
  function LowerChar(c: char): char {
    if 'A' <= c <= 'Z' then (c as int + 32) as char else if c == '\U{212A}' then 'k' else c
  }

  function Lower(s: string): (r: string)
    ensures |r| == |s|
  {
    seq(|s|, i requires 0 <= i < |s| => LowerChar(s[i]))
  }

  /** The blanks by number: tab to carriage return, the spaces of Unicode, its two separators and the byte order
   * mark. */
  lemma WhiteIs(c: char)
    ensures var n := c as int;
            IsWhite(c) <==> 9 <= n <= 13 || n in [32, 160, 5760] || 8192 <= n <= 8202 ||
                            n in [8232, 8233, 8239, 8287, 12288, 65279]
  {
  }

  /** Capital letters become the small letters in their places; but for one sign nothing else changes. */
  lemma LowerIs(i: nat, c: char)
    ensures i < 26 ==> LowerChar("ABCDEFGHIJKLMNOPQRSTUVWXYZ"[i]) == "abcdefghijklmnopqrstuvwxyz"[i]
    ensures (c as int < 65 || c as int > 90) && c as int != 8490 ==> LowerChar(c) == c
  {
  }

  lemma {:induction false} StartTrimmed(before: string, s: string)
    requires (forall c <- before :: IsWhite(c)) && (s == "" || !IsWhite(s[0]))
    ensures TrimStart(before + s) == s
  {
    hide IsWhite;
    if before == "" {
      assert before + s == s;
    } else {
      assert before[0] in before && (before + s)[1..] == before[1..] + s;
      StartTrimmed(before[1..], s);
    }
  }

  lemma {:induction false} EndTrimmed(s: string, after: string)
    requires (forall c <- after :: IsWhite(c)) && (s == "" || !IsWhite(s[|s| - 1]))
    ensures TrimEnd(s + after) == s
  {
    hide IsWhite;
    if after == "" {
      assert s + after == s;
    } else {
      var init := after[..|after| - 1];
      assert after[|after| - 1] in after && (s + after)[..|s + after| - 1] == s + init;
      EndTrimmed(s, init);
    }
  }

  /** Trimming takes the blanks off both ends and nothing else. */
  lemma TrimIs(before: string, s: string, after: string)
    requires (forall c <- before :: IsWhite(c)) && (forall c <- after :: IsWhite(c))
    requires s == "" || (!IsWhite(s[0]) && !IsWhite(s[|s| - 1]))
    ensures Trim(before + (s + after)) == s
  {
    if s == "" {
      assert s + after == after && before + after + "" == before + after;
      StartTrimmed(before + after, "");
    } else {
      assert (s + after)[0] == s[0];
      StartTrimmed(before, s + after);
      EndTrimmed(s, after);
    }
  }
}
