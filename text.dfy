/** String operations that the schema setters and the email pattern rely on:
    ECMAScript whitespace, `String.prototype.trim`, and lower-casing. */
module Text {

  /** The ECMAScript WhiteSpace and LineTerminator code points: the class `\s` of a
      regular expression, and what `trim` strips. */
  predicate IsSpace(c: char) {
    || c == '\t' || c == '\n' || c == '\U{B}' || c == '\U{C}' || c == '\r' || c == ' '
    || c == '\U{A0}' || c == '\U{1680}' || ('\U{2000}' <= c <= '\U{200A}')
    || c == '\U{2028}' || c == '\U{2029}' || c == '\U{202F}' || c == '\U{205F}'
    || c == '\U{3000}' || c == '\U{FEFF}'
  }

  /** Every character of `s[lo..hi]` is whitespace. */
  ghost predicate SpaceBetween(s: string, lo: nat, hi: nat)
    requires lo <= hi <= |s|
  {
    forall i :: lo <= i < hi ==> IsSpace(s[i])
  }

  /** No whitespace at either end. */
  ghost predicate Trimmed(s: string) {
    s == [] || (!IsSpace(s[0]) && !IsSpace(s[|s| - 1]))
  }

  /** The end of the whitespace run that starts at `i`. */
  function SkipSpace(s: string, i: nat): (j: nat)
    requires i <= |s|
    ensures i <= j <= |s| && SpaceBetween(s, i, j)
    ensures j == |s| || !IsSpace(s[j])
    decreases |s| - i
  {
    if i == |s| || !IsSpace(s[i]) then i else SkipSpace(s, i + 1)
  }

  /** The start of the whitespace run that ends at `j`, not reaching below `lo`. */
  function SkipSpaceBack(s: string, lo: nat, j: nat): (i: nat)
    requires lo <= j <= |s|
    ensures lo <= i <= j && SpaceBetween(s, i, j)
    ensures i == lo || !IsSpace(s[i - 1])
    decreases j
  {
    if j == lo || !IsSpace(s[j - 1]) then j else SkipSpaceBack(s, lo, j - 1)
  }

  /** `String.prototype.trim`: whitespace removed at both ends. */
  function Trim(s: string): (r: string)
    ensures Trimmed(r) && |r| <= |s|
  {
    var i := SkipSpace(s, 0);
    s[i..SkipSpaceBack(s, i, |s|)]
  }

  /** What `Trim` removes is whitespace and nothing else: the result is a slice of `s`
      with only whitespace on either side of it. */
  lemma TrimIsSlice(s: string)
    ensures exists i, j :: 0 <= i <= j <= |s| && Trim(s) == s[i..j] && SpaceBetween(s, 0, i) && SpaceBetween(s, j, |s|)
  {
    var i := SkipSpace(s, 0);
    var j := SkipSpaceBack(s, i, |s|);
    assert Trim(s) == s[i..j];
  }

  /** Trimming a trimmed string changes nothing, so a stored (trimmed) value survives
      being set again. */
  lemma TrimIdempotent(s: string)
    ensures Trim(s) == s <==> Trimmed(s)
  {
    if Trimmed(s) && s != [] {
      assert SkipSpace(s, 0) == 0;
      assert SkipSpaceBack(s, 0, |s|) == |s|;
    }
  }

  /** ASCII lower-casing of one character. */
  function LowerChar(c: char): char {
    if 'A' <= c <= 'Z' then (c as int + 32) as char else c
  }

  /** `String.prototype.toLowerCase`, restricted to the ASCII letters. */
  function Lower(s: string): (r: string)
    ensures |r| == |s|
    ensures forall i :: 0 <= i < |s| ==> r[i] == LowerChar(s[i])
  {
    if s == [] then [] else [LowerChar(s[0])] + Lower(s[1..])
  }

  ghost predicate NoUpper(s: string) {
    forall i :: 0 <= i < |s| ==> !('A' <= s[i] <= 'Z')
  }

  /** Lower-casing leaves no upper-case ASCII letter, changes nothing in a string that
      has none, and keeps whitespace where it was, so a trimmed string stays trimmed. */
  lemma LowerProperties(s: string)
    ensures NoUpper(Lower(s))
    ensures NoUpper(s) ==> Lower(s) == s
    ensures Trimmed(s) ==> Trimmed(Lower(s))
  {
    var l := Lower(s);
    forall i | 0 <= i < |l| ensures !('A' <= l[i] <= 'Z') {
      assert l[i] == LowerChar(s[i]);
    }
    if NoUpper(s) {
      assert forall i :: 0 <= i < |s| ==> l[i] == s[i];
    }
    if Trimmed(s) && s != [] {
      assert l[0] == LowerChar(s[0]) && l[|l| - 1] == LowerChar(s[|s| - 1]);
    }
  }

  /** The form in which the email setters leave a value: trimmed, no upper-case letter. */
  ghost predicate EmailForm(e: string) {
    Trimmed(e) && NoUpper(e)
  }

  /** What the `trim` and `lowercase` setters store for an email. */
  function NormalizeEmail(e: string): (r: string)
    ensures |r| <= |e|
  {
    Lower(Trim(e))
  }

  /** The setters always store a value in email form, and a value already in that form
      is exactly one they leave unchanged. */
  lemma NormalizeEmailForm(e: string)
    ensures EmailForm(NormalizeEmail(e))
    ensures NormalizeEmail(e) == e <==> EmailForm(e)
  {
    LowerProperties(Trim(e));
    if EmailForm(e) {
      TrimIdempotent(e);
      LowerProperties(e);
    }
  }

  /** A stored email is a fixed point of the setters: setting it again stores it unchanged. */
  lemma NormalizeEmailIdempotent(e: string)
    ensures NormalizeEmail(NormalizeEmail(e)) == NormalizeEmail(e)
  {
    NormalizeEmailForm(e);
    NormalizeEmailForm(NormalizeEmail(e));
  }
}
