/** The pipeline's constants: the deepest administrative level, the output
    directory of each processing level, the character tables of the name
    cleanup, the ISO3 filter read from the environment, and the three
    synthetic country entries added to the country registry. */
module Config {
  import opened Text
  import opened Frames

  /** Administrative levels run from 0 (country) to this one. */
  const AdminLevelMax := 5
  const Wgs84 := 4326

  // ---------------------------------------------------------------------
  // Directories
  // ---------------------------------------------------------------------

  const InputsDir := "inputs"
  /** `inputs/un`: the UN masks, global lines and additions. */
  const UnDir := "inputs/un"
  /** `extended/pre` and `extended/post`: the per-layer split files. */
  const ExtendedPre := "extended/pre"
  const ExtendedPost := "extended/post"

  /** The output directory of each processing level. */
  const L1Dir := "outputs/level-1"
  const L1aDir := "outputs/level-1a"
  const L1bDir := "outputs/level-1b"
  const L2Dir := "outputs/level-2"
  const L2lDir := "outputs/level-2-lines"
  const L3Dir := "outputs/level-3"
  const L3lDir := "outputs/level-3-lines"

  /** Where each processing level writes its files, by name. */
  const ProcessingLevels: map<string, string> := map[
    "1" := L1Dir,
    "1a" := L1aDir,
    "1b" := L1bDir,
    "2" := L2Dir,
    "2l" := L2lDir,
    "3" := L3Dir,
    "3l" := L3lDir
  ]

  /** Processing levels name distinct directories. */
  lemma ProcessingLevelsDistinct(a: string, b: string)
    requires a in ProcessingLevels && b in ProcessingLevels && a != b
    ensures ProcessingLevels[a] != ProcessingLevels[b]
  {
  }

  // ---------------------------------------------------------------------
  // Character tables
  // ---------------------------------------------------------------------

  /** Characters removed from names, as "U+XXXX" code point names. */
  const InvisibleChars: seq<string> :=
    ["U+0009", "U+000A", "U+000D", "U+00A0", "U+200C", "U+200E", "U+200F", "U+FEFF"]
  /** Characters that become an ASCII apostrophe in names. */
  const ApostropheChars: seq<string> := ["U+0060", "U+2019", "U+2032"]
  /** Listed alongside, but not used by the name cleanup. */
  const QuoteChars: seq<string> := ["U+201C", "U+201D"]

  predicate IsHexDigit(c: char) {
    IsDigit(c) || 'A' <= c <= 'F' || 'a' <= c <= 'f'
  }

  function HexValue(c: char): (v: nat)
    requires IsHexDigit(c)
    ensures v < 16
  {
    if IsDigit(c) then c as int - '0' as int
    else if 'A' <= c <= 'F' then c as int - 'A' as int + 10
    else c as int - 'a' as int + 10
  }

  /** `int(s, 16)` for a string of hexadecimal digits. */
  function ParseHex(s: string): nat
    requires forall i :: 0 <= i < |s| ==> IsHexDigit(s[i])
  {
    if s == [] then 0 else ParseHex(s[..|s| - 1]) * 16 + HexValue(s[|s| - 1])
  }

  /** `chr(int(name[2:], 16))`: the character a "U+XXXX" name stands for,
      or None when the name does not decode to a Unicode scalar value. */
  function CodeChar(name: string): (c: Option<char>)
    ensures c.Some? ==> |name| > 2 && forall i :: 2 <= i < |name| ==> IsHexDigit(name[i])
  {
    if |name| <= 2 || exists i :: 2 <= i < |name| && !IsHexDigit(name[i]) then None
    else
      var v := ParseHex(name[2..]);
      if v < 0xD800 || 0xE000 <= v < 0x11_0000 then Some(v as char) else None
  }

  /** The characters a table stands for, in table order. */
  function CharsOf(names: seq<string>): (cs: seq<char>)
    ensures |cs| <= |names|
    ensures forall c :: c in cs <==> exists i :: 0 <= i < |names| && CodeChar(names[i]) == Some(c)
  {
    if names == [] then []
    else
      var rest := CharsOf(names[1..]);
      assert forall i :: 1 <= i < |names| ==> names[i] == names[1..][i - 1];
      assert forall c :: (exists i :: 0 <= i < |names[1..]| && CodeChar(names[1..][i]) == Some(c)) ==>
        exists i :: 0 <= i < |names| && CodeChar(names[i]) == Some(c) by {
        forall c | exists i :: 0 <= i < |names[1..]| && CodeChar(names[1..][i]) == Some(c)
          ensures exists i :: 0 <= i < |names| && CodeChar(names[i]) == Some(c)
        {
          var i :| 0 <= i < |names[1..]| && CodeChar(names[1..][i]) == Some(c);
          assert CodeChar(names[i + 1]) == Some(c);
        }
      }
      match CodeChar(names[0])
      case Some(c) => [c] + rest
      case None => rest
  }

  /** `int(s, 16)` of a four-digit string, digit by digit. */
  lemma ParseHex4(s: string)
    requires |s| == 4 && forall i :: 0 <= i < 4 ==> IsHexDigit(s[i])
    ensures ParseHex(s) == ((HexValue(s[0]) * 16 + HexValue(s[1])) * 16 + HexValue(s[2])) * 16 + HexValue(s[3])
  {
    var s3, s2, s1 := s[..3], s[..2], s[..1];
    assert s3[..2] == s2 && s2[..1] == s1 && s1[..0] == [];
    assert s3[2] == s[2] && s2[1] == s[1] && s1[0] == s[0];
    assert ParseHex(s1) == HexValue(s[0]);
    assert ParseHex(s2) == HexValue(s[0]) * 16 + HexValue(s[1]);
    assert ParseHex(s3) == (HexValue(s[0]) * 16 + HexValue(s[1])) * 16 + HexValue(s[2]);
  }

  /** A "U+XXXX" name decodes to the character of its four hex digits. */
  lemma CodeName(name: string, c: char)
    requires |name| == 6 && forall i :: 2 <= i < 6 ==> IsHexDigit(name[i])
    requires ParseHex(name[2..]) == c as int
    ensures CodeChar(name) == Some(c)
  {
    assert !exists i :: 2 <= i < |name| && !IsHexDigit(name[i]);
  }

  /** A table whose every name decodes stands for its decoded characters. */
  lemma {:induction false} CharsOfAll(names: seq<string>, cs: seq<char>)
    requires |names| == |cs|
    requires forall i :: 0 <= i < |names| ==> CodeChar(names[i]) == Some(cs[i])
    ensures CharsOf(names) == cs
  {
    if names != [] {
      CharsOfAll(names[1..], cs[1..]);
    }
  }

  /** The invisible table stands for exactly tab, line feed, carriage
      return, no-break space, zero-width non-joiner, the two directional
      marks and the byte order mark. */
  lemma InvisibleTable()
    ensures CharsOf(InvisibleChars) ==
      ['\t', '\n', '\r', '\U{A0}', '\U{200C}', '\U{200E}', '\U{200F}', '\U{FEFF}']
  {
    var cs := ['\t', '\n', '\r', '\U{A0}', '\U{200C}', '\U{200E}', '\U{200F}', '\U{FEFF}'];
    forall i | 0 <= i < 8 ensures CodeChar(InvisibleChars[i]) == Some(cs[i]) {
      var n := InvisibleChars[i];
      ParseHex4(n[2..]);
      CodeName(n, cs[i]);
    }
    CharsOfAll(InvisibleChars, cs);
  }

  /** The apostrophe table stands for exactly the grave accent, the right
      single quotation mark and the prime. */
  lemma ApostropheTable()
    ensures CharsOf(ApostropheChars) == ['\U{60}', '\U{2019}', '\U{2032}']
  {
    var cs := ['\U{60}', '\U{2019}', '\U{2032}'];
    forall i | 0 <= i < 3 ensures CodeChar(ApostropheChars[i]) == Some(cs[i]) {
      var n := ApostropheChars[i];
      ParseHex4(n[2..]);
      CodeName(n, cs[i]);
    }
    CharsOfAll(ApostropheChars, cs);
  }

  // ---------------------------------------------------------------------
  // The ISO3 filter (environment variable ISO3)
  // ---------------------------------------------------------------------

  /** Some non-blank piece, upper-cased and stripped, is `c`. */
  predicate CleanedFrom(pieces: seq<string>, c: string) {
    exists i :: 0 <= i < |pieces| && !IsBlank(pieces[i]) && c == Strip(Upper(pieces[i]))
  }

  /** The non-blank pieces, upper-cased and stripped. */
  function CleanCodes(pieces: seq<string>): (r: seq<string>)
    ensures |r| <= |pieces|
    ensures forall c :: c in r <==> CleanedFrom(pieces, c)
  {
    if pieces == [] then []
    else
      var rest := CleanCodes(pieces[1..]);
      assert forall i :: 1 <= i < |pieces| ==> pieces[i] == pieces[1..][i - 1];
      assert forall c :: CleanedFrom(pieces[1..], c) ==> CleanedFrom(pieces, c) by {
        forall c | CleanedFrom(pieces[1..], c) ensures CleanedFrom(pieces, c) {
          var i :| 0 <= i < |pieces[1..]| && !IsBlank(pieces[1..][i]) && c == Strip(Upper(pieces[1..][i]));
          assert pieces[i + 1] == pieces[1..][i];
        }
      }
      (if !IsBlank(pieces[0]) then [Strip(Upper(pieces[0]))] else []) + rest
  }

  /** `[x.upper().strip() for x in env.split(",") if x.strip() != ""]`. */
  function ParseIso3List(env: string): seq<string> {
    CleanCodes(Split(env, ','))
  }

  /** A code as the filter holds it: not blank, already stripped and
      upper-cased, without a comma. */
  predicate CleanCode(c: string) {
    !IsBlank(c) && Strip(c) == c && Upper(c) == c && ',' !in c
  }

  lemma UpperKeepsBlank(s: string)
    ensures IsBlank(Upper(s)) <==> IsBlank(s)
    ensures forall d :: d in Upper(s) && !IsAsciiUpper(d) ==> d in s
  {
    UpperNormal(s);
    assert forall i :: 0 <= i < |s| ==> (IsSpace(Upper(s)[i]) <==> IsSpace(s[i]));
    forall d | d in Upper(s) && !IsAsciiUpper(d) ensures d in s {
      var i :| 0 <= i < |s| && Upper(s)[i] == d;
    }
  }

  /** Stripping an upper-cased non-blank piece gives a clean code. */
  lemma CleanPiece(p: string)
    requires !IsBlank(p) && ',' !in p
    ensures CleanCode(Strip(Upper(p)))
  {
    var u := Upper(p);
    UpperKeepsBlank(p);
    UpperNormal(p);
    var c := Strip(u);
    StripIdempotent(u);
    StripBounds(u);
    assert c == u[StripStart(u)..StripEnd(u)];
    assert !IsBlank(c) by {
      assert !IsSpace(c[0]);
    }
    assert forall i :: 0 <= i < |c| ==> !IsAsciiLower(c[i]);
    assert Upper(c) == c;
  }

  /** Every entry of the filter is a clean code. */
  lemma {:induction false} ParsedCodesClean(env: string)
    ensures forall c :: c in ParseIso3List(env) ==> CleanCode(c)
  {
    SplitPiecesClean(env, ',');
    CleanCodesClean(Split(env, ','));
  }

  lemma {:induction false} CleanCodesClean(pieces: seq<string>)
    requires forall p :: p in pieces ==> ',' !in p
    ensures forall c :: c in CleanCodes(pieces) ==> CleanCode(c)
  {
    if pieces != [] {
      assert pieces[0] in pieces;
      assert forall p :: p in pieces[1..] ==> p in pieces;
      CleanCodesClean(pieces[1..]);
      if !IsBlank(pieces[0]) { CleanPiece(pieces[0]); }
    }
  }

  lemma {:induction false} CleanCodesIdentity(codes: seq<string>)
    requires forall c :: c in codes ==> CleanCode(c)
    ensures CleanCodes(codes) == codes
  {
    if codes != [] {
      assert codes[0] in codes;
      assert forall p :: p in codes[1..] ==> p in codes;
      CleanCodesIdentity(codes[1..]);
    }
  }

  /** Round trip: a comma-joined list of clean codes parses back to itself
      (the empty list included, as an unset variable). */
  lemma Iso3ListJoin(codes: seq<string>)
    requires forall c :: c in codes ==> CleanCode(c)
    ensures ParseIso3List(Join(codes, ',')) == codes
  {
    if codes != [] {
      SplitJoin(codes, ',');
      CleanCodesIdentity(codes);
    }
  }

  /** A country is processed when the filter is empty or lists it. */
  predicate Selected(iso3List: seq<string>, iso3: string) {
    |iso3List| == 0 || iso3 in iso3List
  }

  // ---------------------------------------------------------------------
  // Synthetic countries
  // ---------------------------------------------------------------------

  datatype Country = Country(alpha2: string, alpha3: string, name: string, numeric: string)

  /** The Kashmir and Siachen entries added to the country registry. */
  const SyntheticCountries: seq<Country> := [
    Country("XI", "XIK", "India-administered Kashmir", "900"),
    Country("XP", "XPK", "Pakistan-administered Kashmir", "901"),
    Country("XS", "XSG", "Siachen Glacier", "902")
  ]

  /** All synthetic entries carry an X-prefixed code, which routes them to
      the disputed-area mask, distinct codes, and numerics 900 to 902. */
  lemma SyntheticCodes()
    ensures forall c :: c in SyntheticCountries ==>
      StartsWith(c.alpha3, "X") && AllDigits(c.numeric) && 900 <= ParseNat(c.numeric) <= 902
    ensures forall i, j :: 0 <= i < j < |SyntheticCountries| ==>
      SyntheticCountries[i].alpha3 != SyntheticCountries[j].alpha3
  {
    forall i | 0 <= i < 3
      ensures StartsWith(SyntheticCountries[i].alpha3, "X") && AllDigits(SyntheticCountries[i].numeric)
      ensures 900 <= ParseNat(SyntheticCountries[i].numeric) <= 902
    {
      NumericNineHundreds(SyntheticCountries[i].numeric);
    }
  }

  /** "90d" reads as 900 + d. */
  lemma NumericNineHundreds(s: string)
    requires |s| == 3 && s[0] == '9' && s[1] == '0' && '0' <= s[2] <= '9'
    ensures AllDigits(s) && ParseNat(s) == 900 + (s[2] as int - '0' as int)
  {
    var s2, s1 := s[..2], s[..1];
    assert s[..|s| - 1] == s2 && s2[..|s2| - 1] == s1 && s1[..|s1| - 1] == [];
    assert ParseNat(s1) == 9;
    assert ParseNat(s2) == 90;
  }
}
