/**
 The string primitives the record store relies on: `String.prototype.trim`,
 `toUpperCase`, `toLowerCase` and `includes`. Trimming strips exactly the
 characters ECMA-262 classifies as WhiteSpace or LineTerminator; case mapping
 is restricted to the ASCII letters.
 */
module Text {

  /** WhiteSpace and LineTerminator code points of ECMA-262 (the set `trim` removes). */
  predicate IsTrimmable(c: char) {
    if c <= ' ' then c == ' ' || '\t' <= c <= '\r'
    else if c < '\U{00A0}' then false
    else
      || c == '\U{00A0}' || c == '\U{1680}' || '\U{2000}' <= c <= '\U{200A}'
      || c == '\U{2028}' || c == '\U{2029}' || c == '\U{202F}' || c == '\U{205F}'
      || c == '\U{3000}' || c == '\U{FEFF}'
  }

  /** A string with nothing left for `trim` to remove at either end. */
  predicate IsTrimmed(s: string) {
    s == [] || (!IsTrimmable(s[0]) && !IsTrimmable(s[|s| - 1]))
  }

  /** Drops leading trimmable characters: the result is the longest suffix that starts untrimmable. */
  function TrimStart(s: string): (r: string)
    ensures |r| <= |s| && r == s[|s| - |r|..]
    ensures forall i :: 0 <= i < |s| - |r| ==> IsTrimmable(s[i])
    ensures r == [] || !IsTrimmable(r[0])
  {
    if |s| > 0 && IsTrimmable(s[0]) then TrimStart(s[1..]) else s
  }

  /** Drops trailing trimmable characters: the result is the longest prefix that ends untrimmable. */
  function TrimEnd(s: string): (r: string)
    ensures |r| <= |s| && r == s[..|r|]
    ensures forall i :: |r| <= i < |s| ==> IsTrimmable(s[i])
    ensures r == [] || !IsTrimmable(r[|r| - 1])
  {
    if |s| > 0 && IsTrimmable(s[|s| - 1]) then TrimEnd(s[..|s| - 1]) else s
  }

  /** `r` sits at offset `i` of `s` and everything around it is trimmable. */
  ghost predicate TrimmedAt(s: string, r: string, i: int) {
    && 0 <= i && i + |r| <= |s|
    && r == s[i..i + |r|]
    && (forall k :: 0 <= k < i ==> IsTrimmable(s[k]))
    && (forall k :: i + |r| <= k < |s| ==> IsTrimmable(s[k]))
  }

  /** `String.prototype.trim`: strips whitespace at both ends. */
  function Trim(s: string): (r: string)
    ensures IsTrimmed(r)
    ensures |r| <= |s|
  {
    TrimEnd(TrimStart(s))
  }

  /** `trim` removes whitespace and nothing else: the result sits inside the input surrounded only by whitespace. */
  lemma TrimIsSlice(s: string)
    ensures exists i :: TrimmedAt(s, Trim(s), i)
  {
    var t := TrimStart(s);
    assert Trim(s) == TrimEnd(t);
    assert TrimmedAt(s, TrimEnd(t), |s| - |t|);
  }

  /** Trimming leaves an already trimmed string alone, so `trim` is idempotent. */
  lemma TrimKeepsTrimmed(s: string)
    requires IsTrimmed(s)
    ensures Trim(s) == s
  {
    assert TrimStart(s) == s by {
      if s != [] {
        assert !IsTrimmable(s[0]);
      }
    }
    assert TrimEnd(s) == s by {
      if s != [] {
        assert !IsTrimmable(s[|s| - 1]);
      }
    }
  }

  /** A leading blank before an untrimmable start is all `TrimStart` removes. */
  lemma TrimStartDropsBlank(u: string)
    requires u == [] || !IsTrimmable(u[0])
    ensures TrimStart([' '] + u) == u
  {
    var padded := [' '] + u;
    assert padded[1..] == u;
  }

  /** A trailing blank after an untrimmable end is all `TrimEnd` removes. */
  lemma TrimEndDropsBlank(u: string)
    requires u == [] || !IsTrimmable(u[|u| - 1])
    ensures TrimEnd(u + [' ']) == u
  {
    var padded := u + [' '];
    assert padded[..|padded| - 1] == u;
  }

  /** One blank on each side of a trimmed string is exactly what `trim` removes. */
  lemma TrimStripsPadding(t: string)
    requires IsTrimmed(t)
    ensures Trim([' '] + t + [' ']) == t
  {
    var tail := t + [' '];
    assert [' '] + t + [' '] == [' '] + tail;
    if t == [] {
      assert [' '] + tail == "  " && "  "[1..] == " " && " "[1..] == "";
      assert TrimStart("  ") == "";
    } else {
      assert tail[0] == t[0];
      TrimStartDropsBlank(tail);
      TrimEndDropsBlank(t);
    }
  }

  lemma TrimIdempotent(s: string)
    ensures Trim(Trim(s)) == Trim(s)
  {
    TrimKeepsTrimmed(Trim(s));
  }

  predicate IsAsciiLower(c: char) { 'a' <= c <= 'z' }

  predicate IsAsciiUpper(c: char) { 'A' <= c <= 'Z' }

  function UpperChar(c: char): (u: char)
    ensures !IsAsciiLower(u)
    ensures IsAsciiLower(c) ==> u as int == c as int - 32
    ensures !IsAsciiLower(c) ==> u == c
  {
    if IsAsciiLower(c) then (c as int - 32) as char else c
  }

  function LowerChar(c: char): (l: char)
    ensures !IsAsciiUpper(l)
    ensures IsAsciiUpper(c) ==> l as int == c as int + 32
    ensures !IsAsciiUpper(c) ==> l == c
  {
    if IsAsciiUpper(c) then (c as int + 32) as char else c
  }

  /** `toUpperCase`, restricted to ASCII letters: position by position. */
  function Upper(s: string): (r: string)
    ensures |r| == |s|
    ensures forall i :: 0 <= i < |s| ==> r[i] == UpperChar(s[i])
  {
    if s == [] then [] else [UpperChar(s[0])] + Upper(s[1..])
  }

  /** `toLowerCase`, restricted to ASCII letters: position by position. */
  function Lower(s: string): (r: string)
    ensures |r| == |s|
    ensures forall i :: 0 <= i < |s| ==> r[i] == LowerChar(s[i])
  {
    if s == [] then [] else [LowerChar(s[0])] + Lower(s[1..])
  }

  /** Uppercasing twice is uppercasing once. */
  lemma UpperIdempotent(s: string)
    ensures Upper(Upper(s)) == Upper(s)
  {
  }

  /** A string with no lowercase ASCII letter is left alone by uppercasing. */
  lemma UpperKeepsUpper(s: string)
    requires forall k :: 0 <= k < |s| ==> !IsAsciiLower(s[k])
    ensures Upper(s) == s
  {
  }

  /** Case-folding forgets a prior uppercasing: a query matches the same whatever its case. */
  lemma LowerForgetsUpper(s: string)
    ensures Lower(Upper(s)) == Lower(s)
  {
  }

  predicate StartsWith(s: string, prefix: string) {
    |prefix| <= |s| && s[..|prefix|] == prefix
  }

  /** `String.prototype.includes`: some suffix of `hay` starts with `needle`. */
  predicate Contains(hay: string, needle: string)
    ensures needle == [] ==> Contains(hay, needle)
    ensures Contains(hay, needle) ==> |needle| <= |hay|
    ensures Contains(hay, needle) && hay == [] ==> needle == []
    decreases |hay|
  {
    StartsWith(hay, needle) || (|hay| > 0 && Contains(hay[1..], needle))
  }

  /** `needle` occurs in `hay` starting at position `i`. */
  ghost predicate OccursAt(hay: string, needle: string, i: int) {
    0 <= i && i + |needle| <= |hay| && hay[i..i + |needle|] == needle
  }

  /** An occurrence at position `i` is found by the scan. */
  lemma {:induction false} OccursImpliesContains(hay: string, needle: string, i: int)
    requires OccursAt(hay, needle, i)
    ensures Contains(hay, needle)
    decreases i
  {
    if i == 0 {
      assert hay[..|needle|] == needle;
    } else {
      assert hay[1..][i - 1..i - 1 + |needle|] == hay[i..i + |needle|];
      OccursImpliesContains(hay[1..], needle, i - 1);
    }
  }

  /** The scanning definition of `Contains` agrees with the positional one. */
  lemma {:induction false} ContainsIffOccurs(hay: string, needle: string)
    ensures Contains(hay, needle) <==> exists i :: OccursAt(hay, needle, i)
    decreases |hay|
  {
    forall i | OccursAt(hay, needle, i) ensures Contains(hay, needle) {
      OccursImpliesContains(hay, needle, i);
    }
    if StartsWith(hay, needle) {
      assert OccursAt(hay, needle, 0);
    } else if Contains(hay, needle) {
      ContainsIffOccurs(hay[1..], needle);
      var i :| OccursAt(hay[1..], needle, i);
      assert hay[1..][i..i + |needle|] == hay[i + 1..i + 1 + |needle|];
      assert OccursAt(hay, needle, i + 1);
    }
  }

  /** The empty string is contained in every string. */
  lemma ContainsEmpty(hay: string)
    ensures Contains(hay, "")
  {
    assert StartsWith(hay, "");
  }

  /** Lowercasing both sides keeps a literal occurrence: case-insensitive matching is weaker than exact. */
  lemma ContainsLowered(hay: string, needle: string)
    requires Contains(hay, needle)
    ensures Contains(Lower(hay), Lower(needle))
  {
    ContainsIffOccurs(hay, needle);
    var i :| OccursAt(hay, needle, i);
    assert Lower(hay)[i..i + |needle|] == Lower(needle);
    assert OccursAt(Lower(hay), Lower(needle), i);
    ContainsIffOccurs(Lower(hay), Lower(needle));
  }
}
