/** String helpers shared by the model: JavaScript truthiness of optional
    strings, the `\s` character class, `replace(/\s+/g, '')`, `trim()`,
    `split(":")[0]`, substring search and integer formatting.
    A string is a sequence of UTF-16 code units, one `char` per unit. */
module Text {
  import opened Wrappers

  /** JavaScript truthiness of a `string | undefined`: defined and non-empty. */
  predicate Truthy(s: Option<string>) {
    s.Some? && s.value != ""
  }

  /** `s || fallback` for a `string | undefined`. */
  function OrElse(s: Option<string>, fallback: string): (r: string)
    ensures Truthy(s) ==> r == s.value
    ensures !Truthy(s) ==> r == fallback
  {
    if Truthy(s) then s.value else fallback
  }

  /** The characters matched by the regular-expression class `\s`, which are
      also the characters `String.prototype.trim` removes. */
  predicate IsWhitespace(c: char) {
    c == ' ' || c == '\t' || c == '\n' || c == '\r' ||
    c == '\U{000B}' || c == '\U{000C}' || c == '\U{00A0}' || c == '\U{1680}' ||
    ('\U{2000}' <= c <= '\U{200A}') ||
    c == '\U{2028}' || c == '\U{2029}' || c == '\U{202F}' || c == '\U{205F}' ||
    c == '\U{3000}' || c == '\U{FEFF}'
  }

  /** `s.replace(/\s+/g, '')`: every whitespace character removed, the others
      kept in order. */
  function StripWhitespace(s: string): (r: string)
    ensures |r| <= |s|
    ensures forall i :: 0 <= i < |r| ==> !IsWhitespace(r[i])
  {
    if s == [] then []
    else (if IsWhitespace(s[0]) then [] else [s[0]]) + StripWhitespace(s[1..])
  }

  /** Stripping keeps every other character as often as it occurs and
      removes every whitespace character. */
  lemma {:induction false} StripKeepsOthers(s: string)
    ensures forall c :: multiset(StripWhitespace(s))[c] == if IsWhitespace(c) then 0 else multiset(s)[c]
    ensures forall c :: c in StripWhitespace(s) <==> c in s && !IsWhitespace(c)
  {
    if s != [] {
      assert s == [s[0]] + s[1..];
      assert multiset(s) == multiset([s[0]]) + multiset(s[1..]);
      StripKeepsOthers(s[1..]);
    }
  }

  /** Stripping works piecewise: the kept characters stay in their order. */
  lemma {:induction false} StripConcat(a: string, b: string)
    ensures StripWhitespace(a + b) == StripWhitespace(a) + StripWhitespace(b)
  {
    if a == [] {
      assert a + b == b;
    } else {
      var ab := a + b;
      assert ab[0] == a[0] && ab[1..] == a[1..] + b;
      StripConcat(a[1..], b);
      var rest := StripWhitespace(a[1..]);
      if IsWhitespace(a[0]) {
        assert StripWhitespace(ab) == StripWhitespace(a[1..] + b);
        assert StripWhitespace(a) == rest;
      } else {
        assert StripWhitespace(ab) == [a[0]] + StripWhitespace(a[1..] + b);
        assert StripWhitespace(a) == [a[0]] + rest;
      }
    }
  }

  /** Leading whitespace removed. */
  function TrimStart(s: string): (r: string)
    ensures |r| <= |s| && r == s[|s| - |r|..]
    ensures r == [] || !IsWhitespace(r[0])
    ensures forall i :: 0 <= i < |s| - |r| ==> IsWhitespace(s[i])
  {
    if s != [] && IsWhitespace(s[0]) then TrimStart(s[1..]) else s
  }

  /** Trailing whitespace removed. */
  function TrimEnd(s: string): (r: string)
    ensures |r| <= |s| && r == s[..|r|]
    ensures r == [] || !IsWhitespace(r[|r| - 1])
    ensures forall i :: |r| <= i < |s| ==> IsWhitespace(s[i])
  {
    if s != [] && IsWhitespace(s[|s| - 1]) then TrimEnd(s[..|s| - 1]) else s
  }

  /** `sub` occurs in `s` at offset `i`. */
  predicate StartsAt(s: string, i: int, sub: string) {
    0 <= i && i + |sub| <= |s| && s[i..i + |sub|] == sub
  }

  /** `s.includes(sub)`. */
  predicate Contains(s: string, sub: string) {
    exists i :: 0 <= i <= |s| && StartsAt(s, i, sub)
  }

  /** A prefix of a suffix of `s` occurs in `s` where the suffix starts. */
  lemma PrefixOfSuffix(s: string, t: string, r: string)
    requires |t| <= |s| && t == s[|s| - |t|..]
    requires |r| <= |t| && r == t[..|r|]
    ensures StartsAt(s, |s| - |t|, r)
  {
    var off := |s| - |t|;
    assert forall k :: 0 <= k < |r| ==> s[off..off + |r|][k] == r[k];
  }

  /** `r` sits at offset `i` of `s` with only whitespace before and after it. */
  predicate WhitespaceAround(s: string, i: int, r: string) {
    StartsAt(s, i, r) &&
    (forall k :: 0 <= k < i ==> IsWhitespace(s[k])) &&
    (forall k :: i + |r| <= k < |s| ==> IsWhitespace(s[k]))
  }

  /** Cutting a whitespace prefix and then a whitespace suffix leaves a
      piece with only whitespace around it. */
  lemma CutAround(s: string, t: string, r: string)
    requires |t| <= |s| && t == s[|s| - |t|..]
    requires forall k :: 0 <= k < |s| - |t| ==> IsWhitespace(s[k])
    requires |r| <= |t| && r == t[..|r|]
    requires forall k :: |r| <= k < |t| ==> IsWhitespace(t[k])
    ensures WhitespaceAround(s, |s| - |t|, r)
  {
    var i := |s| - |t|;
    assert s[i..i + |r|] == r by {
      forall k | 0 <= k < |r|
        ensures s[i..i + |r|][k] == r[k]
      {
        assert s[i + k] == t[k];
      }
    }
    forall k | i + |r| <= k < |s|
      ensures IsWhitespace(s[k])
    {
      assert s[k] == t[k - i];
    }
  }

  /** `s.trim()`: the piece of `s` left once the whitespace at both ends is
      cut; it neither starts nor ends with whitespace. */
  function Trim(s: string): (r: string)
    ensures |r| <= |s|
    ensures Contains(s, r)
    ensures exists i :: WhitespaceAround(s, i, r)
    ensures r == [] || (!IsWhitespace(r[0]) && !IsWhitespace(r[|r| - 1]))
  {
    var t := TrimStart(s);
    var r := TrimEnd(t);
    CutAround(s, t, r);
    var i := |s| - |t|;
    assert WhitespaceAround(s, i, r);
    assert StartsAt(s, i, r);
    assert r != [] ==> r[0] == t[0];
    r
  }

  /** A piece with whitespace around it that starts with a non-whitespace
      character starts at the first non-whitespace character of `s`. */
  lemma SameStart(s: string, i: int, r: string, j: int, t: string)
    requires WhitespaceAround(s, i, r) && WhitespaceAround(s, j, t)
    requires r != [] && !IsWhitespace(r[0]) && t != [] && !IsWhitespace(t[0])
    ensures i == j
  {
    assert s[i] == s[i..i + |r|][0];
    assert s[j] == s[j..j + |t|][0];
  }

  /** Symmetrically, such a piece ending with a non-whitespace character ends
      at the last non-whitespace character of `s`. */
  lemma SameEnd(s: string, i: int, r: string, j: int, t: string)
    requires WhitespaceAround(s, i, r) && WhitespaceAround(s, j, t)
    requires r != [] && !IsWhitespace(r[|r| - 1]) && t != [] && !IsWhitespace(t[|t| - 1])
    ensures i + |r| == j + |t|
  {
    assert s[i + |r| - 1] == s[i..i + |r|][|r| - 1];
    assert s[j + |t| - 1] == s[j..j + |t|][|t| - 1];
  }

  /** The trim is the only piece with whitespace around it that neither
      starts nor ends with whitespace. */
  lemma TrimUnique(s: string, i: int, r: string)
    requires WhitespaceAround(s, i, r)
    requires r == [] || (!IsWhitespace(r[0]) && !IsWhitespace(r[|r| - 1]))
    ensures Trim(s) == r
  {
    var t := Trim(s);
    var j :| WhitespaceAround(s, j, t);
    if r == [] {
      assert forall k :: 0 <= k < |s| ==> IsWhitespace(s[k]);
    } else {
      assert s[i] == s[i..i + |r|][0];
      assert forall k :: 0 <= k < |s| && (k < i || i + |r| <= k) ==> IsWhitespace(s[k]);
      assert t != [];
      SameStart(s, i, r, j, t);
      SameEnd(s, i, r, j, t);
    }
  }

  /** `s.split(c)[0]`: the text before the first occurrence of `c`, or the
      whole string when `c` does not occur. */
  function BeforeChar(s: string, c: char): (r: string)
    ensures r <= s
    ensures c !in r
    ensures r == s || s[|r|] == c
  {
    if s == [] || s[0] == c then [] else [s[0]] + BeforeChar(s[1..], c)
  }

  /** `s.endsWith(t)`. */
  predicate EndsWith(s: string, t: string) {
    |t| <= |s| && s[|s| - |t|..] == t
  }

  /** Both parts of a concatenation occur in it where they were put. */
  lemma ConcatParts(a: string, b: string)
    ensures StartsAt(a + b, 0, a) && StartsAt(a + b, |a|, b) && EndsWith(a + b, b)
  {
    assert (a + b)[..|a|] == a;
    assert (a + b)[|a|..] == b;
  }

  /** `pieces.join(sep)`. */
  function Join(pieces: seq<string>, sep: string): (r: string)
    ensures |pieces| == 1 ==> r == pieces[0]
    ensures pieces != [] ==> pieces[0] <= r && EndsWith(r, pieces[|pieces| - 1])
    decreases |pieces|
  {
    if |pieces| == 0 then ""
    else if |pieces| == 1 then pieces[0]
    else
      var init := Join(pieces[..|pieces| - 1], sep);
      var r := init + sep + pieces[|pieces| - 1];
      assert pieces[..|pieces| - 1][0] == pieces[0];
      assert r[|r| - |pieces[|pieces| - 1]|..] == pieces[|pieces| - 1];
      r
  }

  /** One more piece joins after the separator. */
  lemma JoinSnoc(init: seq<string>, last: string, sep: string)
    requires init != []
    ensures Join(init + [last], sep) == Join(init, sep) + sep + last
  {
    var p := init + [last];
    assert p[..|p| - 1] == init && p[|p| - 1] == last;
  }

  /** Joining two non-empty lists is joining each and putting one separator
      between the two results: the pieces appear in their order. */
  lemma {:induction false} JoinConcat(a: seq<string>, b: seq<string>, sep: string)
    requires a != [] && b != []
    ensures Join(a + b, sep) == Join(a, sep) + sep + Join(b, sep)
    decreases |b|
  {
    var b', last := b[..|b| - 1], b[|b| - 1];
    assert b == b' + [last];
    assert a + b == (a + b') + [last];
    if b' == [] {
      assert a + b == a + [last];
      JoinSnoc(a, last, sep);
    } else {
      JoinSnoc(a + b', last, sep);
      JoinSnoc(b', last, sep);
      JoinConcat(a, b', sep);
    }
  }

  /** A list of two or more pieces joins as its first piece, the separator,
      then the join of the rest. */
  lemma JoinCons(x: string, rest: seq<string>, sep: string)
    requires rest != []
    ensures Join([x] + rest, sep) == x + sep + Join(rest, sep)
  {
    JoinConcat([x], rest, sep);
  }

  function DigitChar(d: nat): char
    requires d < 10
  {
    "0123456789"[d]
  }

  /** The decimal digits of `n`, most significant first. */
  function NatToString(n: nat): (r: string)
    ensures |r| >= 1
    ensures forall i :: 0 <= i < |r| ==> '0' <= r[i] <= '9'
  {
    if n < 10 then [DigitChar(n)] else NatToString(n / 10) + [DigitChar(n % 10)]
  }

  /** The decimal form of an integral JavaScript number (`${n}`). */
  function IntToString(n: int): string {
    if n < 0 then "-" + NatToString(-n) else NatToString(n)
  }
}
