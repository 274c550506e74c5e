/**
 The pieces of JavaScript string behaviour the editor relies on: the `\s`
 character class (which is also the set `trimEnd` strips), `toLowerCase`,
 `trimEnd` and `replace(/\s+/g, '-')`. A string is a sequence of Unicode
 scalar values.
 */
module JsText {

  /** ECMAScript WhiteSpace and LineTerminator code points: the `\s` class, and what `trimEnd` removes. */
  predicate IsSpace(c: char)
  {
    || c == '\t' || c == '\n' || c == '\U{000B}' || c == '\U{000C}' || c == '\r'
    || c == ' ' || c == '\U{00A0}' || c == '\U{1680}'
    || ('\U{2000}' <= c <= '\U{200A}')
    || c == '\U{2028}' || c == '\U{2029}' || c == '\U{202F}' || c == '\U{205F}'
    || c == '\U{3000}' || c == '\U{FEFF}'
  }

  predicate NoSpace(s: string)
  {
    forall i :: 0 <= i < |s| ==> !IsSpace(s[i])
  }

  predicate AllSpace(s: string)
  {
    forall i :: 0 <= i < |s| ==> IsSpace(s[i])
  }

  /** True when `s` is empty or its last character is not white space. */
  predicate EndsClean(s: string)
  {
    s == [] || !IsSpace(s[|s| - 1])
  }

  /** True when `s` is empty or its first character is not white space. */
  predicate StartsClean(s: string)
  {
    s == [] || !IsSpace(s[0])
  }

  // ---------------------------------------------------------------- trimEnd

  /** `String.prototype.trimEnd`: the longest prefix that does not end in white space. */
  function TrimEnd(s: string): (r: string)
    ensures r <= s
    ensures AllSpace(s[|r|..])
    ensures EndsClean(r)
    decreases |s|
  {
    if s != [] && IsSpace(s[|s| - 1]) then TrimEnd(s[..|s| - 1]) else s
  }

  /** The split into "clean prefix + white-space tail" is unique, so it determines `TrimEnd`. */
  lemma {:induction false} TrimEndUnique(p: string, w: string)
    requires EndsClean(p) && AllSpace(w)
    ensures TrimEnd(p + w) == p
    decreases |w|
  {
    if w == [] {
      assert p + w == p;
    } else {
      var s := p + w;
      assert s[|s| - 1] == w[|w| - 1];
      assert s[..|s| - 1] == p + w[..|w| - 1];
      TrimEndUnique(p, w[..|w| - 1]);
    }
  }

  /** The trimmed text is empty exactly when the whole text is white space. */
  lemma TrimEndEmptyIff(s: string)
    ensures TrimEnd(s) == [] <==> AllSpace(s)
  {
    if AllSpace(s) {
      assert [] + s == s;
      TrimEndUnique([], s);
    }
  }

  /** Trimming twice is trimming once. */
  lemma TrimEndIdempotent(s: string)
    ensures TrimEnd(TrimEnd(s)) == TrimEnd(s)
  {
    var r := TrimEnd(s);
    assert r + [] == r;
    TrimEndUnique(r, []);
  }

  // ------------------------------------------------------------ toLowerCase

  /** `toLowerCase` restricted to ASCII: A-Z become a-z, every other character is kept. */
  function LowerChar(c: char): (d: char)
    ensures 'A' <= c <= 'Z' ==> d == "abcdefghijklmnopqrstuvwxyz"[c as int - 'A' as int]
    ensures !('A' <= d <= 'Z')
    ensures d == c <==> !('A' <= c <= 'Z')
    ensures IsSpace(d) <==> IsSpace(c)
  {
    if 'A' <= c <= 'Z' then (c as int + 32) as char else c
  }

  /** `toLowerCase`, character by character. */
  function Lower(s: string): (r: string)
    ensures |r| == |s|
    ensures forall i :: 0 <= i < |s| ==> r[i] == LowerChar(s[i])
    ensures forall i :: 0 <= i < |s| ==> (r[i] == s[i] <==> !('A' <= s[i] <= 'Z'))
  {
    seq(|s|, i requires 0 <= i < |s| => LowerChar(s[i]))
  }

  /** Lower-casing neither creates nor removes white space, and leaves no ASCII capital behind. */
  lemma LowerKeepsSpaces(s: string)
    ensures forall i :: 0 <= i < |s| ==> (IsSpace(Lower(s)[i]) <==> IsSpace(s[i]))
    ensures forall i :: 0 <= i < |s| ==> !('A' <= Lower(s)[i] <= 'Z')
  {
  }

  // ---------------------------------------------- replace(/\s+/g, '-')

  /** The length of the leading run of white space. */
  function LeadingSpaces(s: string): (n: nat)
    ensures n <= |s|
    ensures forall i :: 0 <= i < n ==> IsSpace(s[i])
    ensures n < |s| ==> !IsSpace(s[n])
  {
    if s != [] && IsSpace(s[0]) then 1 + LeadingSpaces(s[1..]) else 0
  }

  /** The text after its leading run of white space. */
  function DropLeadingSpaces(s: string): (r: string)
    ensures StartsClean(r)
  {
    s[LeadingSpaces(s)..]
  }

  /** `replace(/\s+/g, '-')`: every maximal run of white space becomes one hyphen. */
  function HyphenateSpaces(s: string): (r: string)
    ensures NoSpace(r)
    ensures |r| <= |s|
    decreases |s|
  {
    if s == [] then []
    else if IsSpace(s[0]) then "-" + HyphenateSpaces(DropLeadingSpaces(s[1..]))
    else [s[0]] + HyphenateSpaces(s[1..])
  }

  /** A text without white space is left as it is. */
  lemma {:induction false} HyphenateNoSpace(s: string)
    requires NoSpace(s)
    ensures HyphenateSpaces(s) == s
    decreases |s|
  {
    if s != [] {
      HyphenateNoSpace(s[1..]);
    }
  }

  /** A white-space run followed by a non-space (or the end) becomes exactly one hyphen. */
  lemma {:induction false} HyphenateRun(w: string, b: string)
    requires w != [] && AllSpace(w) && StartsClean(b)
    ensures HyphenateSpaces(w + b) == "-" + HyphenateSpaces(b)
  {
    DropAfterRun(w[1..], b);
    assert (w + b)[1..] == w[1..] + b;
  }

  lemma {:induction false} DropAfterRun(w: string, b: string)
    requires AllSpace(w) && StartsClean(b)
    ensures LeadingSpaces(w + b) == |w|
    ensures DropLeadingSpaces(w + b) == b
    decreases |w|
  {
    if w == [] {
      assert w + b == b;
    } else {
      assert (w + b)[1..] == w[1..] + b;
      DropAfterRun(w[1..], b);
    }
    assert (w + b)[|w|..] == b;
  }

  /** Cutting after a non-space character commutes with the replacement. */
  lemma {:induction false} HyphenateAppend(a: string, b: string)
    requires EndsClean(a)
    ensures HyphenateSpaces(a + b) == HyphenateSpaces(a) + HyphenateSpaces(b)
    decreases |a|, 1
  {
    if a == [] {
      assert a + b == b;
    } else if IsSpace(a[0]) {
      HyphenateAppendAtRun(a, b);
    } else {
      assert (a + b)[0] == a[0];
      assert (a + b)[1..] == a[1..] + b;
      assert a[1..] != [] ==> a[1..][|a[1..]| - 1] == a[|a| - 1];
      HyphenateAppend(a[1..], b);
    }
  }

  lemma {:induction false} HyphenateAppendAtRun(a: string, b: string)
    requires a != [] && IsSpace(a[0]) && EndsClean(a)
    ensures HyphenateSpaces(a + b) == HyphenateSpaces(a) + HyphenateSpaces(b)
    decreases |a|, 0
  {
    var t := SkipRun(a, b);
    HyphenateAppend(t, b);
    HyphenThen(HyphenateSpaces(t), HyphenateSpaces(b));
  }

  lemma HyphenThen(x: string, y: string)
    ensures ("-" + x) + y == "-" + (x + y)
  {
  }

  /** The text `t` after the leading run of `a`: both `a` and `a + b` become a hyphen followed by what `t` and `t + b` become. */
  lemma SkipRun(a: string, b: string) returns (t: string)
    requires a != [] && IsSpace(a[0]) && EndsClean(a)
    ensures |t| < |a| && EndsClean(t)
    ensures HyphenateSpaces(a + b) == "-" + HyphenateSpaces(t + b)
    ensures HyphenateSpaces(a) == "-" + HyphenateSpaces(t)
  {
    var rest := a[1..];
    var n := LeadingSpaces(rest);
    var w := rest[..n];
    t := rest[n..];
    assert rest == w + t;
    RunLeavesLast(a, w, t);
    assert StartsClean(t) by { assert t[0] == rest[n]; }
    RunThenRest(a, b, w, t);
    assert (a + b)[0] == a[0];
    HyphenateAfterRun(a + b, t + b);
    HyphenateAfterRun(a, t);
  }

  lemma RunLeavesLast(a: string, w: string, t: string)
    requires a != [] && IsSpace(a[0]) && EndsClean(a)
    requires a[1..] == w + t && AllSpace(w)
    ensures t != [] && t[|t| - 1] == a[|a| - 1]
  {
    assert |a| >= 2;
    assert !IsSpace(a[1..][|a| - 2]);
  }

  /** One unfolding of the replacement at a leading white-space character whose run leaves `t`. */
  lemma HyphenateAfterRun(s: string, t: string)
    requires s != [] && IsSpace(s[0])
    requires s[1..][LeadingSpaces(s[1..])..] == t
    ensures HyphenateSpaces(s) == "-" + HyphenateSpaces(t)
  {
  }

  lemma RunThenRest(a: string, b: string, w: string, t: string)
    requires a != [] && a[1..] == w + t && AllSpace(w) && StartsClean(t) && t != []
    ensures var r := (a + b)[1..]; r[LeadingSpaces(r)..] == t + b
    ensures var r := a[1..]; r[LeadingSpaces(r)..] == t
  {
    assert (a + b)[1..] == w + (t + b);
    DropAfterRun(w, t + b);
    DropAfterRun(w, t);
  }

  /** Two space-free words around one space are joined by one hyphen. */
  lemma HyphenateOneGap(a: string, b: string)
    requires NoSpace(a) && NoSpace(b)
    ensures HyphenateSpaces(a + (" " + b)) == a + ("-" + b)
  {
    assert EndsClean(a) by { if a != [] { assert !IsSpace(a[|a| - 1]); } }
    assert StartsClean(b) by { if b != [] { assert !IsSpace(b[0]); } }
    HyphenateAppend(a, " " + b);
    HyphenateRun(" ", b);
    HyphenateNoSpace(a);
    HyphenateNoSpace(b);
  }

}
