/** Python string primitives the pipeline relies on, over Dafny strings
    (sequences of Unicode scalar values). Stripping, splitting, joining,
    replacing and the numerals follow the Python built-ins, edge cases
    included. Case mapping covers the ASCII letters only: Python's
    `str.lower()` and `str.upper()` also map every other cased letter
    (`É` and `é`), which `Lower` and `Upper` leave as they are. */
module Text {

  // ---------------------------------------------------------------------
  // Whitespace, stripping, blanks
  // ---------------------------------------------------------------------

  /** Python's str.isspace(); also the class `\s` of a Unicode regular expression. */
  predicate IsSpace(c: char) {
    || ('\t' <= c <= '\r')
    || ('\U{1C}' <= c <= '\U{1F}')
    || c == ' ' || c == '\U{85}' || c == '\U{A0}' || c == '\U{1680}'
    || ('\U{2000}' <= c <= '\U{200A}')
    || c == '\U{2028}' || c == '\U{2029}' || c == '\U{202F}' || c == '\U{205F}'
    || c == '\U{3000}'
  }

  /** The whole string matches `^\s*$` (the empty string included). */
  predicate IsBlank(s: string) {
    forall i :: 0 <= i < |s| ==> IsSpace(s[i])
  }

  /** Number of leading whitespace characters. */
  function StripStart(s: string): (k: nat)
    ensures k <= |s|
    ensures forall i :: 0 <= i < k ==> IsSpace(s[i])
    ensures k < |s| ==> !IsSpace(s[k])
  {
    if s == [] || !IsSpace(s[0]) then 0 else 1 + StripStart(s[1..])
  }

  /** Index just after the last non-whitespace character (0 if there is none). */
  function StripEnd(s: string): (k: nat)
    ensures k <= |s|
    ensures forall i :: k <= i < |s| ==> IsSpace(s[i])
    ensures k > 0 ==> !IsSpace(s[k - 1])
  {
    if s == [] || !IsSpace(s[|s| - 1]) then |s| else StripEnd(s[..|s| - 1])
  }

  /** Python's str.strip() with no argument: whitespace removed at both ends. */
  function Strip(s: string): (r: string)
    ensures IsBlank(s) ==> r == []
    ensures !IsBlank(s) ==> StripStart(s) < StripEnd(s) && r == s[StripStart(s)..StripEnd(s)]
    ensures r == [] || (!IsSpace(r[0]) && !IsSpace(r[|r| - 1]))
  {
    StripBounds(s);
    var a, b := StripStart(s), StripEnd(s);
    if a < b then s[a..b] else []
  }

  lemma StripBounds(s: string)
    ensures IsBlank(s) ==> StripStart(s) == |s|
    ensures !IsBlank(s) ==> StripStart(s) < StripEnd(s)
  {
    if !IsBlank(s) {
      var i :| 0 <= i < |s| && !IsSpace(s[i]);
      assert StripStart(s) <= i < StripEnd(s);
    }
  }

  /** Strip keeps exactly the characters between the first and the last
      non-whitespace one; everything cut off is whitespace. */
  lemma StripCutsOnlySpace(s: string)
    ensures forall i :: 0 <= i < |s| && !IsSpace(s[i]) ==> StripStart(s) <= i < StripEnd(s)
  {
  }

  /** Stripping twice is stripping once. */
  lemma StripIdempotent(s: string)
    ensures Strip(Strip(s)) == Strip(s)
  {
    var r := Strip(s);
    if r != [] {
      assert StripStart(r) == 0;
      assert StripEnd(r) == |r|;
      assert !IsBlank(r) by { assert !IsSpace(r[0]); }
    }
  }

  /** A character absent from the input is absent from the stripped result. */
  lemma StripKeepsAbsence(s: string, c: char)
    requires c !in s
    ensures c !in Strip(s)
  {
  }

  // ---------------------------------------------------------------------
  // Literal replacement (str.replace / Series.str.replace with regex=False)
  // ---------------------------------------------------------------------

  /** Python's str.replace(pat, rep): non-overlapping occurrences, scanned
      left to right. (An empty pattern has another meaning in Python and is
      not used by the pipeline.) */
  function ReplaceAll(s: string, pat: string, rep: string): string
    requires pat != []
    decreases |s|
  {
    if |s| < |pat| then s
    else if s[..|pat|] == pat then rep + ReplaceAll(s[|pat|..], pat, rep)
    else [s[0]] + ReplaceAll(s[1..], pat, rep)
  }

  predicate StartsWith(s: string, p: string) {
    |p| <= |s| && s[..|p|] == p
  }

  /** `sub` occurs somewhere in `s` (Python's `sub in s`). */
  predicate IsInfix(sub: string, s: string)
    decreases |s|
  {
    StartsWith(s, sub) || (s != [] && IsInfix(sub, s[1..]))
  }

  /** `sub` occurs in `s` starting at position `i`. */
  predicate OccursAt(sub: string, s: string, i: int) {
    0 <= i && i + |sub| <= |s| && s[i..i + |sub|] == sub
  }

  /** `IsInfix` is substring occurrence: `sub` is in `s` exactly when it
      occurs at some position of `s`. */
  lemma {:induction false} IsInfixAt(sub: string, s: string)
    ensures IsInfix(sub, s) <==> exists i :: OccursAt(sub, s, i)
    decreases |s|
  {
    if s != [] {
      IsInfixAt(sub, s[1..]);
      if StartsWith(s, sub) {
        assert OccursAt(sub, s, 0);
      }
      if IsInfix(sub, s[1..]) {
        var i :| OccursAt(sub, s[1..], i);
        assert s[1..][i..i + |sub|] == s[i + 1..i + 1 + |sub|];
        assert OccursAt(sub, s, i + 1);
      }
      if exists i :: OccursAt(sub, s, i) {
        var i :| OccursAt(sub, s, i);
        if i > 0 {
          assert s[1..][i - 1..i - 1 + |sub|] == s[i..i + |sub|];
          assert OccursAt(sub, s[1..], i - 1);
        } else {
          assert StartsWith(s, sub);
        }
      }
    } else {
      if IsInfix(sub, s) {
        assert OccursAt(sub, s, 0);
      }
      if exists i :: OccursAt(sub, s, i) {
        var i :| OccursAt(sub, s, i);
        assert sub == [];
        assert StartsWith(s, sub);
      }
    }
  }

  /** A string occurs in any string built around it. */
  lemma InfixWithin(sub: string, x: string, y: string)
    ensures IsInfix(sub, x + sub + y)
  {
    var s := x + sub + y;
    assert s[|x|..|x| + |sub|] == sub;
    assert OccursAt(sub, s, |x|);
    IsInfixAt(sub, s);
  }

  /** Replacing a pattern by itself changes nothing. */
  lemma {:induction false} ReplaceAllSelf(s: string, pat: string)
    requires pat != []
    ensures ReplaceAll(s, pat, pat) == s
    decreases |s|
  {
    if |s| < |pat| {
    } else if s[..|pat|] == pat {
      ReplaceAllSelf(s[|pat|..], pat);
      assert s == s[..|pat|] + s[|pat|..];
    } else {
      ReplaceAllSelf(s[1..], pat);
      assert s == [s[0]] + s[1..];
    }
  }

  /** A pattern that does not occur leaves the string unchanged. */
  lemma {:induction false} ReplaceAllAbsent(s: string, pat: string, rep: string)
    requires pat != [] && !IsInfix(pat, s)
    ensures ReplaceAll(s, pat, rep) == s
    decreases |s|
  {
    if |s| >= |pat| {
      ReplaceAllAbsent(s[1..], pat, rep);
      assert s == [s[0]] + s[1..];
    }
  }

  /** Replacing one character: a character is in the result iff it was in
      the input and is not the replaced one, or the replaced character
      occurred and the character belongs to the replacement. */
  lemma {:induction false} ReplaceCharMembers(s: string, c: char, rep: string)
    ensures forall d :: d in ReplaceAll(s, [c], rep) <==> (d in s && d != c) || (c in s && d in rep)
    decreases |s|
  {
    if |s| >= 1 {
      ReplaceCharMembers(s[1..], c, rep);
      assert s == [s[0]] + s[1..];
    }
  }

  // ---------------------------------------------------------------------
  // Collapsing runs of spaces (regex " +" replaced by " ")
  // ---------------------------------------------------------------------

  /** Every run of U+0020 becomes a single U+0020; other whitespace is kept. */
  function CollapseSpaces(s: string): string
  {
    if |s| <= 1 then s
    else if s[0] == ' ' && s[1] == ' ' then CollapseSpaces(s[1..])
    else [s[0]] + CollapseSpaces(s[1..])
  }

  predicate NoDoubleSpace(s: string) {
    forall i :: 0 <= i < |s| - 1 ==> !(s[i] == ' ' && s[i + 1] == ' ')
  }

  lemma {:induction false} CollapseHead(s: string)
    requires s != []
    ensures CollapseSpaces(s) != [] && CollapseSpaces(s)[0] == s[0]
  {
    if |s| > 1 && s[0] == ' ' && s[1] == ' ' {
      CollapseHead(s[1..]);
    }
  }

  /** The result never holds two spaces in a row. */
  lemma {:induction false} CollapseNoDouble(s: string)
    ensures NoDoubleSpace(CollapseSpaces(s))
  {
    if |s| > 1 {
      CollapseNoDouble(s[1..]);
      if !(s[0] == ' ' && s[1] == ' ') {
        CollapseHead(s[1..]);
        var r := CollapseSpaces(s[1..]);
        assert CollapseSpaces(s) == [s[0]] + r;
        assert r[0] == s[1];
      }
    }
  }

  /** A string without double spaces is left alone. */
  lemma {:induction false} CollapseFixpoint(s: string)
    requires NoDoubleSpace(s)
    ensures CollapseSpaces(s) == s
  {
    if |s| > 1 {
      assert NoDoubleSpace(s[1..]) by {
        forall i | 0 <= i < |s[1..]| - 1 ensures !(s[1..][i] == ' ' && s[1..][i + 1] == ' ') {
          assert s[1..][i] == s[i + 1] && s[1..][i + 1] == s[i + 2];
        }
      }
      CollapseFixpoint(s[1..]);
      assert s == [s[0]] + s[1..];
    }
  }

  /** The rewriting rule behind the regular expression: anywhere in the
      string, two spaces may be replaced by one without changing the result. */
  lemma {:induction false} CollapseRewrite(x: string, y: string)
    ensures CollapseSpaces(x + "  " + y) == CollapseSpaces(x + " " + y)
    decreases |x|
  {
    var s, t := x + "  " + y, x + " " + y;
    if x == [] {
      assert s[1..] == t;
    } else {
      assert s[0] == t[0] == x[0];
      assert s[1] == t[1];
      CollapseRewrite(x[1..], y);
      assert s[1..] == x[1..] + "  " + y;
      assert t[1..] == x[1..] + " " + y;
    }
  }

  /** Collapsing twice is collapsing once. */
  lemma CollapseIdempotent(s: string)
    ensures CollapseSpaces(CollapseSpaces(s)) == CollapseSpaces(s)
  {
    CollapseNoDouble(s);
    CollapseFixpoint(CollapseSpaces(s));
  }

  /** Collapsing deletes spaces only: the set of characters is unchanged. */
  lemma {:induction false} CollapseMembers(s: string)
    ensures forall d :: d in CollapseSpaces(s) <==> d in s
  {
    if |s| > 1 {
      CollapseMembers(s[1..]);
      assert s == [s[0]] + s[1..];
      assert s[1] in s[1..];
    }
  }

  // ---------------------------------------------------------------------
  // Case mapping, on the ASCII letters only
  // ---------------------------------------------------------------------

  predicate IsAsciiUpper(c: char) { 'A' <= c <= 'Z' }
  predicate IsAsciiLower(c: char) { 'a' <= c <= 'z' }
  predicate IsDigit(c: char) { '0' <= c <= '9' }

  function LowerChar(c: char): char {
    if IsAsciiUpper(c) then (c as int + 32) as char else c
  }

  function UpperChar(c: char): char {
    if IsAsciiLower(c) then (c as int - 32) as char else c
  }

  function Lower(s: string): string {
    seq(|s|, i requires 0 <= i < |s| => LowerChar(s[i]))
  }

  function Upper(s: string): string {
    seq(|s|, i requires 0 <= i < |s| => UpperChar(s[i]))
  }

  /** Lower-casing leaves no upper-case letter behind and is idempotent. */
  lemma LowerNormal(s: string)
    ensures |Lower(s)| == |s|
    ensures forall i :: 0 <= i < |s| ==> !IsAsciiUpper(Lower(s)[i])
    ensures Lower(Lower(s)) == Lower(s)
  {
  }

  /** Upper-casing leaves no lower-case letter behind and is idempotent. */
  lemma UpperNormal(s: string)
    ensures |Upper(s)| == |s|
    ensures forall i :: 0 <= i < |s| ==> !IsAsciiLower(Upper(s)[i])
    ensures Upper(Upper(s)) == Upper(s)
  {
  }

  // ---------------------------------------------------------------------
  // Decimal integers (f"{n}")
  // ---------------------------------------------------------------------

  function DigitChar(d: nat): char
    requires d < 10
  {
    ('0' as int + d) as char
  }

  predicate AllDigits(s: string) {
    forall i :: 0 <= i < |s| ==> IsDigit(s[i])
  }

  /** The decimal numeral of n, without leading zeros. */
  function NatToString(n: nat): (s: string)
    ensures s != [] && AllDigits(s)
    decreases n
  {
    if n < 10 then [DigitChar(n)] else NatToString(n / 10) + [DigitChar(n % 10)]
  }

  /** Python's str(i) for an int. */
  function IntToString(i: int): string {
    if i < 0 then "-" + NatToString(-i) else NatToString(i)
  }

  /** Reads a string of decimal digits back as a number. */
  function ParseNat(s: string): nat
    requires AllDigits(s)
  {
    if s == [] then 0 else ParseNat(s[..|s| - 1]) * 10 + (s[|s| - 1] as int - '0' as int)
  }

  /** Printing then reading a number gives the number back. */
  lemma {:induction false} ParseNatToString(n: nat)
    ensures ParseNat(NatToString(n)) == n
    decreases n
  {
    if n >= 10 {
      ParseNatToString(n / 10);
      var s := NatToString(n);
      assert s[..|s| - 1] == NatToString(n / 10);
    }
  }

  /** The numeral of a negative number, and only of one, starts with '-'. */
  lemma IntToStringSign(x: int)
    ensures IntToString(x) != [] && (IntToString(x)[0] == '-' <==> x < 0)
  {
    if x >= 0 {
      assert IsDigit(NatToString(x)[0]);
    }
  }

  /** Distinct numbers print differently. */
  lemma IntToStringInjective(a: int, b: int)
    requires IntToString(a) == IntToString(b)
    ensures a == b
  {
    IntToStringSign(a);
    IntToStringSign(b);
    if a < 0 {
      assert NatToString(-a) == IntToString(a)[1..];
      assert NatToString(-b) == IntToString(b)[1..];
      ParseNatToString(-a);
      ParseNatToString(-b);
    } else {
      ParseNatToString(a);
      ParseNatToString(b);
    }
  }

  // ---------------------------------------------------------------------
  // Splitting and joining on one separator (str.split(sep), sep.join)
  // ---------------------------------------------------------------------

  /** Python's s.split(sep) for a one-character separator: n separators give
      n + 1 pieces, so "" splits into [""]. */
  function Split(s: string, sep: char): (parts: seq<string>)
    ensures |parts| >= 1
  {
    if s == [] then [""]
    else
      var rest := Split(s[1..], sep);
      if s[0] == sep then [""] + rest else [[s[0]] + rest[0]] + rest[1..]
  }

  /** Python's sep.join(parts). */
  function Join(parts: seq<string>, sep: char): string {
    if parts == [] then ""
    else if |parts| == 1 then parts[0]
    else parts[0] + [sep] + Join(parts[1..], sep)
  }

  /** No piece of a split contains the separator. */
  lemma {:induction false} SplitPiecesClean(s: string, sep: char)
    ensures forall p :: p in Split(s, sep) ==> sep !in p
  {
    if s != [] {
      SplitPiecesClean(s[1..], sep);
      var rest := Split(s[1..], sep);
      if s[0] != sep {
        assert rest[0] in rest;
        forall p | p in [[s[0]] + rest[0]] + rest[1..] ensures sep !in p {
          if p != [s[0]] + rest[0] {
            assert p in rest[1..];
            assert p in rest;
          }
        }
      }
    }
  }

  /** Joining the pieces of a split gives back the string. */
  lemma {:induction false} JoinSplit(s: string, sep: char)
    ensures Join(Split(s, sep), sep) == s
  {
    if s != [] {
      JoinSplit(s[1..], sep);
      var rest := Split(s[1..], sep);
      if s[0] == sep {
        assert Split(s, sep) == [""] + rest;
        assert ([""] + rest)[1..] == rest;
      } else {
        var parts := [[s[0]] + rest[0]] + rest[1..];
        assert parts[1..] == rest[1..];
        if |rest| == 1 {
        } else {
          assert Join(rest, sep) == rest[0] + [sep] + Join(rest[1..], sep);
        }
        assert s == [s[0]] + s[1..];
      }
    }
  }

  /** A character other than the separator joins the first piece. */
  lemma SplitCons(c: char, u: string, sep: char)
    requires c != sep
    ensures Split([c] + u, sep) == [[c] + Split(u, sep)[0]] + Split(u, sep)[1..]
  {
    assert ([c] + u)[1..] == u;
  }

  /** Splitting a string that starts with a separator-free part. */
  lemma {:induction false} SplitPrefix(x: string, t: string, sep: char)
    requires sep !in x
    ensures Split(x + t, sep) == [x + Split(t, sep)[0]] + Split(t, sep)[1..]
  {
    if x != [] {
      var y := x[1..];
      SplitPrefix(y, t, sep);
      var st := Split(t, sep);
      assert x + t == [x[0]] + (y + t);
      SplitCons(x[0], y + t, sep);
      assert [x[0]] + (y + st[0]) == x + st[0];
    } else {
      var st := Split(t, sep);
      assert x + t == t;
      assert st == [st[0]] + st[1..];
      assert x + st[0] == st[0];
    }
  }

  /** Splitting at the first separator: the part before it, then the
      pieces of the rest. */
  lemma SplitAtSep(x: string, t: string, sep: char)
    requires sep !in x
    ensures Split(x + [sep] + t, sep) == [x] + Split(t, sep)
  {
    assert x + [sep] + t == x + ([sep] + t);
    SplitPrefix(x, [sep] + t, sep);
    assert ([sep] + t)[1..] == t;
    assert Split([sep] + t, sep) == [""] + Split(t, sep);
    assert x + "" == x;
  }

  /** The first piece of a split is a prefix of the string; it is the whole
      string when the separator does not occur. */
  lemma {:induction false} SplitHead(t: string, sep: char)
    ensures |Split(t, sep)[0]| <= |t| && t[..|Split(t, sep)[0]|] == Split(t, sep)[0]
    ensures sep !in t ==> Split(t, sep) == [t]
  {
    if t != [] {
      SplitHead(t[1..], sep);
      if t[0] != sep {
        var rest := Split(t[1..], sep);
        assert t[..|rest[0]| + 1] == [t[0]] + t[1..][..|rest[0]|];
        if sep !in t {
          assert sep !in t[1..];
          assert t == [t[0]] + t[1..];
        }
      }
    }
  }

  /** Splitting a join gives back the pieces, when no piece holds the separator. */
  lemma {:induction false} SplitJoin(parts: seq<string>, sep: char)
    requires |parts| >= 1
    requires forall p :: p in parts ==> sep !in p
    ensures Split(Join(parts, sep), sep) == parts
  {
    if |parts| == 1 {
      SplitPrefix(parts[0], "", sep);
      assert parts[0] + "" == parts[0];
    } else {
      assert parts[0] in parts;
      forall p | p in parts[1..] ensures sep !in p { assert p in parts; }
      SplitJoin(parts[1..], sep);
      var tail := Join(parts[1..], sep);
      assert Join(parts, sep) == parts[0] + ([sep] + tail);
      SplitPrefix(parts[0], [sep] + tail, sep);
      assert ([sep] + tail)[1..] == tail;
      var st := Split([sep] + tail, sep);
      assert st == [""] + parts[1..];
      assert st[0] == "" && st[1..] == parts[1..];
      assert parts[0] + st[0] == parts[0];
      assert Split(Join(parts, sep), sep) == [parts[0]] + parts[1..];
      assert parts == [parts[0]] + parts[1..];
    }
  }

  // ---------------------------------------------------------------------
  // Ordering (Python compares strings by code point, lexicographically)
  // ---------------------------------------------------------------------

  predicate StrLess(a: string, b: string)
    decreases |a|
  {
    if a == [] then b != []
    else if b == [] then false
    else if a[0] != b[0] then a[0] < b[0]
    else StrLess(a[1..], b[1..])
  }

  lemma {:induction false} StrLessIrreflexive(a: string)
    ensures !StrLess(a, a)
  {
    if a != [] { StrLessIrreflexive(a[1..]); }
  }

  lemma {:induction false} StrLessTransitive(a: string, b: string, c: string)
    requires StrLess(a, b) && StrLess(b, c)
    ensures StrLess(a, c)
    decreases |a|
  {
    if a != [] && a[0] == b[0] && b[0] == c[0] {
      StrLessTransitive(a[1..], b[1..], c[1..]);
    }
  }

  lemma {:induction false} StrLessTotal(a: string, b: string)
    ensures a == b || StrLess(a, b) || StrLess(b, a)
    decreases |a|
  {
    if a != [] && b != [] && a[0] == b[0] {
      StrLessTotal(a[1..], b[1..]);
      if a[1..] == b[1..] {
        assert a == [a[0]] + a[1..] && b == [b[0]] + b[1..];
      }
    }
  }
}
