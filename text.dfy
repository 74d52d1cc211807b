/**
 * `String.prototype.trim` as used by `addTask` (script.js:43): strip the
 * ECMAScript white space and line terminator characters from both ends.
 */
module Text {

  /** ECMAScript WhiteSpace (tab, vertical tab, form feed, the space separators
      of Unicode category Zs, the byte order mark) and LineTerminator. */
  predicate IsSpace(c: char)
  {
    || c == '\t' || c == '\n' || c == '\U{0B}' || c == '\U{0C}' || c == '\r'
    || c == ' ' || c == '\U{A0}' || c == '\U{1680}'
    || ('\U{2000}' <= c <= '\U{200A}')
    || c == '\U{2028}' || c == '\U{2029}' || c == '\U{202F}' || c == '\U{205F}'
    || c == '\U{3000}' || c == '\U{FEFF}'
  }

  /** Every character of `s` is white space (so is the empty string). */
  ghost predicate IsBlank(s: string)
  {
    forall i :: 0 <= i < |s| ==> IsSpace(s[i])
  }

  /** `r` is `s` with its leading and trailing white space removed: a slice
      `s[a..b]` with only white space outside it and none at its two ends. */
  ghost predicate IsTrimOf(s: string, r: string)
  {
    exists a, b :: 0 <= a <= b <= |s| && r == s[a..b] && TrimmedAt(s, r, a, b)
  }

  /** `r`, standing at `s[a..b]`, has only white space around it in `s` and
      none at its own two ends. */
  ghost predicate TrimmedAt(s: string, r: string, a: nat, b: nat)
    requires a <= b <= |s|
  {
    && IsBlank(s[..a])
    && IsBlank(s[b..])
    && (r != [] ==> !IsSpace(r[0]) && !IsSpace(r[|r| - 1]))
  }

  /** `s` without its leading white space. */
  function TrimStart(s: string): string
  {
    if s != [] && IsSpace(s[0]) then TrimStart(s[1..]) else s
  }

  /** `s` without its trailing white space. */
  function TrimEnd(s: string): string
  {
    if s != [] && IsSpace(s[|s| - 1]) then TrimEnd(s[..|s| - 1]) else s
  }

  /** `s.trim()`. */
  function Trim(s: string): string
  {
    TrimEnd(TrimStart(s))
  }

  /** `TrimStart` drops a blank prefix and nothing more: what is left is a
      suffix of `s` that does not start with white space. */
  lemma {:induction false} TrimStartDropsBlankPrefix(s: string)
    ensures var r := TrimStart(s);
            && |r| <= |s| && r == s[|s| - |r|..]
            && IsBlank(s[..|s| - |r|])
            && (r != [] ==> !IsSpace(r[0]))
  {
    if s != [] && IsSpace(s[0]) {
      TrimStartDropsBlankPrefix(s[1..]);
      var r := TrimStart(s[1..]);
      assert s[..|s| - |r|] == [s[0]] + s[1..][..|s| - 1 - |r|];
    }
  }

  /** `TrimEnd` drops a blank suffix and nothing more: what is left is a
      prefix of `s` that does not end with white space. */
  lemma {:induction false} TrimEndDropsBlankSuffix(s: string)
    ensures var r := TrimEnd(s);
            && |r| <= |s| && r == s[..|r|]
            && IsBlank(s[|r|..])
            && (r != [] ==> !IsSpace(r[|r| - 1]))
  {
    if s != [] && IsSpace(s[|s| - 1]) {
      TrimEndDropsBlankSuffix(s[..|s| - 1]);
      var r := TrimEnd(s[..|s| - 1]);
      assert s[|r|..] == s[..|s| - 1][|r|..] + [s[|s| - 1]];
    }
  }

  /** The trimmed text is empty exactly when the input is blank, which is
      when `addTask` does nothing. */
  lemma TrimEmptyIffBlank(s: string)
    ensures Trim(s) == [] <==> IsBlank(s)
  {
    var t := TrimStart(s);
    TrimStartDropsBlankPrefix(s);
    TrimEndDropsBlankSuffix(t);
    if Trim(s) == [] {
      BlankAround(s, |s| - |t|);
    } else {
      var r := Trim(s);
      assert s[|s| - |t|] == r[0];
    }
  }

  /** `Trim` meets the slice characterisation. */
  lemma TrimIsTrimOf(s: string)
    ensures IsTrimOf(s, Trim(s))
  {
    var t := TrimStart(s);
    var r := Trim(s);
    TrimStartDropsBlankPrefix(s);
    TrimEndDropsBlankSuffix(t);
    var a := |s| - |t|;
    var b := a + |r|;
    assert r == s[a..b];
    assert s[b..] == t[|r|..];
    assert TrimmedAt(s, r, a, b);
  }

  /** A non-space character cannot stand inside a blank prefix. */
  lemma OutsideBlankPrefix(s: string, a: nat, c: nat)
    requires a <= |s| && IsBlank(s[..a])
    requires c < |s| && !IsSpace(s[c])
    ensures a <= c
  {
  }

  /** A non-space character cannot stand inside a blank suffix. */
  lemma OutsideBlankSuffix(s: string, b: nat, c: nat)
    requires b <= |s| && IsBlank(s[b..])
    requires c < |s| && !IsSpace(s[c])
    ensures c < b
  {
  }

  /** Only white space lies outside the empty slice: the string is blank. */
  lemma BlankAround(s: string, a: nat)
    requires a <= |s| && IsBlank(s[..a]) && IsBlank(s[a..])
    ensures IsBlank(s)
  {
    forall i | 0 <= i < |s| ensures IsSpace(s[i]) {
      if i < a { assert s[..a][i] == s[i]; } else { assert s[a..][i - a] == s[i]; }
    }
  }

  /** The slice characterisation determines the trimmed string: `Trim` is the
      only function meeting it. */
  lemma TrimOfUnique(s: string, r: string)
    requires IsTrimOf(s, r)
    ensures r == Trim(s)
  {
    var a, b :| 0 <= a <= b <= |s| && r == s[a..b] && TrimmedAt(s, r, a, b);
    if r == [] {
      BlankAround(s, a);
      TrimEmptyIffBlank(s);
    } else {
      TrimmedSliceIsTrim(s, a, b);
    }
  }

  /** A non-empty slice with blank surroundings and non-blank ends is `Trim`. */
  lemma TrimmedSliceIsTrim(s: string, a: nat, b: nat)
    requires a < b <= |s| && TrimmedAt(s, s[a..b], a, b)
    ensures s[a..b] == Trim(s)
  {
    var t := TrimStart(s);
    TrimStartDropsBlankPrefix(s);
    var k := |s| - |t|;
    assert s[a] == s[a..b][0];
    OutsideBlankPrefix(s, k, a);
    assert t[0] == s[k];
    OutsideBlankPrefix(s, a, k);
    assert a == k;
    var u := TrimEnd(t);
    TrimEndDropsBlankSuffix(t);
    var m := k + |u|;
    assert s[b - 1] == s[a..b][b - 1 - a];
    assert t[|u|..] == s[m..];
    OutsideBlankSuffix(s, m, b - 1);
    assert u != [];
    assert s[m - 1] == u[|u| - 1];
    OutsideBlankSuffix(s, b, m - 1);
    assert b == m;
  }

  /** A typed entry with surrounding blanks: `addTask` stores "Buy milk". */
  lemma TrimTypedEntry()
    ensures Trim(" Buy milk\n") == "Buy milk"
  {
    var s := " Buy milk\n";
    assert s[1..9] == "Buy milk";
    assert TrimmedAt(s, s[1..9], 1, 9);
    TrimOfUnique(s, s[1..9]);
  }
}
