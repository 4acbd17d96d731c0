/** Hierarchical wallet derivation paths (accounts/hd.go): the parser, the printer and their round trip. */
module DerivationPaths {
  import opened Wrappers

  const HARDENED := 0x8000_0000
  const MAX_UINT32 := 0xffff_ffff

  type uint32 = n: nat | n <= MAX_UINT32
  type Path = seq<uint32>

  const DEFAULT_ROOT: Path := [HARDENED + 44, HARDENED + 8217, HARDENED + 0, 0]

  datatype Error = EmptyPath | AmbiguousPath | InvalidComponent | OutOfRange | OutOfHardenedRange

  // Strings

  /** White space as Unicode defines it. */
  predicate IsSpace(c: char) {
    var n := c as int;
    || 9 <= n <= 13 || n == 32 || n == 0x85 || n == 0xa0 || n == 0x1680 || 0x2000 <= n <= 0x200a
    || n == 0x2028 || n == 0x2029 || n == 0x202f || n == 0x205f || n == 0x3000
  }

  function Trim(s: string): string {
    if s == [] then []
    else if IsSpace(s[0]) then Trim(s[1..])
    else if IsSpace(s[|s| - 1]) then Trim(s[..|s| - 1])
    else s
  }

  /** The pieces between slashes; there is always at least one. */
  function Split(s: string): (pieces: seq<string>)
    ensures |pieces| >= 1
  {
    if s == [] then [[]]
    else
      var last, below := s[|s| - 1], Split(s[..|s| - 1]);
      if last == '/' then below + [[]] else Lengthen(below, last)
  }

  /** The pieces with a character added to the last one. */
  function Lengthen(pieces: seq<string>, c: char): (r: seq<string>)
    requires |pieces| >= 1
    ensures |r| == |pieces|
  {
    pieces[..|pieces| - 1] + [pieces[|pieces| - 1] + [c]]
  }

  lemma LengthenJoined(a: seq<string>, b: seq<string>, c: char)
    requires |b| >= 1
    ensures Lengthen(a + b, c) == a + Lengthen(b, c)
  {
    assert (a + b)[..|a + b| - 1] == a + b[..|b| - 1];
  }

  lemma {:induction false} SplitAtSlash(a: string, b: string)
    ensures Split(a + "/" + b) == Split(a) + Split(b)
  {
    hide Lengthen;
    var s := a + "/" + b;
    if b == [] {
      assert s[..|s| - 1] == a;
    } else {
      var init, last := b[..|b| - 1], b[|b| - 1];
      SplitAtSlash(a, init);
      assert s[..|s| - 1] == a + "/" + init && s[|s| - 1] == last;
      LengthenJoined(Split(a), Split(init), last);
      assert Split(a) + (Split(init) + [[]]) == (Split(a) + Split(init)) + [[]];
    }
  }

  lemma {:induction false} SplitWhole(s: string)
    requires '/' !in s
    ensures Split(s) == [s]
  {
    hide Lengthen;
    if s != [] {
      var init, last := s[..|s| - 1], s[|s| - 1];
      assert last in s && forall c :: c in init ==> c in s;
      SplitWhole(init);
      LengthenOne(init, last);
      assert s == init + [last];
    }
  }

  lemma LengthenOne(s: string, c: char)
    ensures Lengthen([s], c) == [s + [c]]
  {
  }

  // Numbers

  function DigitOf(c: char): nat {
    if '0' <= c <= '9' then (c - '0') as nat
    else if 'a' <= c <= 'z' then (c - 'a') as nat + 10
    else if 'A' <= c <= 'Z' then (c - 'A') as nat + 10
    else 63
  }

  /** Digits of a base with single underscores after digits; `acc` is the value so far. */
  function Digits(s: string, base: nat, acc: nat, afterDigit: bool, seen: bool): Option<nat> {
    if s == [] then if afterDigit && seen then Some(acc) else None
    else if s[0] == '_' then if afterDigit then Digits(s[1..], base, acc, false, seen) else None
    else if DigitOf(s[0]) < base then Digits(s[1..], base, acc * base + DigitOf(s[0]), true, true)
    else None
  }

  /** An unsigned number with an optional base prefix; a leading zero means octal. */
  function ParseNat(s: string): Option<nat> {
    if |s| <= 1 || s[0] != '0' then Digits(s, 10, 0, false, false)
    else if s[1] in "bB" then Digits(s[2..], 2, 0, true, false)
    else if s[1] in "oO" then Digits(s[2..], 8, 0, true, false)
    else if s[1] in "xX" then Digits(s[2..], 16, 0, true, false)
    else Digits(s[1..], 8, 0, true, false)
  }

  function ParseInt(s: string): Option<int> {
    var signed := s != [] && s[0] in "+-";
    var n := ParseNat(if signed then s[1..] else s);
    if n.None? then None
    else
      var v: int := if signed && s[0] == '-' then 0 - n.value else n.value;
      Some(v)
  }

  function Decimal(n: nat): (s: string)
    ensures s != [] && forall c :: c in s ==> '0' <= c <= '9'
  {
    (if n < 10 then [] else Decimal(n / 10)) + ['0' + (n % 10) as char]
  }

  /** A printed number is read back digit by digit. */
  lemma {:induction false} DigitsOfDecimal(n: nat, rest: string)
    ensures Digits(Decimal(n) + rest, 10, 0, false, false) == Digits(rest, 10, n, true, true)
  {
    var d := '0' + (n % 10) as char;
    assert ([d] + rest)[1..] == rest;
    if n < 10 {
      assert Decimal(n) == [d];
    } else {
      DigitsOfDecimal(n / 10, [d] + rest);
      assert Decimal(n) + rest == Decimal(n / 10) + ([d] + rest);
    }
  }

  lemma {:induction false} DecimalLeads(n: nat)
    ensures Decimal(n)[0] == '0' ==> |Decimal(n)| == 1
    ensures n > 0 ==> Decimal(n)[0] != '0'
  {
    if n >= 10 { DecimalLeads(n / 10); }
  }

  lemma ParseDecimal(n: nat)
    ensures ParseInt(Decimal(n)) == Some(n)
  {
    DecimalLeads(n);
    DigitsOfDecimal(n, []);
    assert Decimal(n) + [] == Decimal(n);
  }

  // Other numerals

  function DigitChar(d: nat, upper: bool): (c: char)
    requires d < 36
    ensures DigitOf(c) == d && c !in "_+-"
  {
    if d < 10 then '0' + d as char else (if upper then 'A' else 'a') + (d - 10) as char
  }

  predicate IsBase(base: nat) {
    base == 2 || base == 8 || base == 16
  }

  /** All but the last digit. */
  function Higher(n: nat, base: nat): (q: nat)
    requires IsBase(base)
    ensures 0 <= n - q * base < base && (n >= base ==> q < n)
  {
    if base == 2 then n / 2 else if base == 8 then n / 8 else n / 16
  }

  /** A number printed in base 2, 8 or 16. */
  function Numeral(n: nat, base: nat, upper: bool): (s: string)
    requires IsBase(base)
    ensures s != []
    decreases n
  {
    var q := Higher(n, base);
    (if n < base then [] else Numeral(q, base, upper)) + [DigitChar(n - q * base, upper)]
  }

  lemma DigitsStep(c: char, s: string, base: nat, acc: nat, afterDigit: bool, seen: bool)
    ensures Digits([c] + s, base, acc, afterDigit, seen) ==
            if c == '_' then if afterDigit then Digits(s, base, acc, false, seen) else None
            else if DigitOf(c) < base then Digits(s, base, acc * base + DigitOf(c), true, true)
            else None
  {
    assert ([c] + s)[1..] == s;
  }

  lemma {:induction false} DigitsOfNumeral(n: nat, base: nat, upper: bool, rest: string)
    requires IsBase(base)
    ensures Digits(Numeral(n, base, upper) + rest, base, 0, true, false) == Digits(rest, base, n, true, true)
    decreases n
  {
    hide Digits, DigitOf, Higher, DigitChar;
    var q := Higher(n, base);
    var d := DigitChar(n - q * base, upper);
    if n < base {
      SmallHigher(n, base);
      assert Numeral(n, base, upper) == [d];
      DigitsStep(d, rest, base, 0, true, false);
    } else {
      DigitsOfNumeral(q, base, upper, [d] + rest);
      DigitsStep(d, rest, base, q, true, true);
      assert Numeral(n, base, upper) + rest == Numeral(q, base, upper) + ([d] + rest);
    }
  }

  lemma SmallHigher(n: nat, base: nat)
    requires IsBase(base) && n < base
    ensures Higher(n, base) == 0
  {
  }

  /** The base a prefix stands for. */
  ghost predicate PrefixOf(prefix: string, base: nat) {
    || (base == 2 && (prefix == "0b" || prefix == "0B"))
    || (base == 8 && (prefix == "0o" || prefix == "0O" || prefix == "0"))
    || (base == 16 && (prefix == "0x" || prefix == "0X"))
  }

  /** A number printed in base 2, 8 or 16 after its prefix reads back, in either case and with either sign. */
  lemma NumeralReadsBack(n: nat, base: nat, upper: bool, prefix: string)
    requires PrefixOf(prefix, base)
    ensures var s := prefix + Numeral(n, base, upper);
            ParseInt(s) == Some(n) && ParseInt("+" + s) == Some(n) && ParseInt("-" + s) == Some(0 - n)
  {
    hide Digits, Numeral, DigitOf;
    var digits := Numeral(n, base, upper);
    var s := prefix + digits;
    ParsesNumeral(n, base, upper, prefix);
    assert ("+" + s)[1..] == s && ("-" + s)[1..] == s;
  }

  lemma ParsesNumeral(n: nat, base: nat, upper: bool, prefix: string)
    requires PrefixOf(prefix, base)
    ensures var s := prefix + Numeral(n, base, upper); s[0] == '0' && ParseNat(s) == Some(n)
  {
    hide Digits, Numeral;
    var digits := Numeral(n, base, upper);
    var s := prefix + digits;
    DigitsOfNumeral(n, base, upper, []);
    DigitsDone(base, n);
    assert digits + [] == digits;
    Leads(n, base, upper);
    assert s[|prefix|..] == digits;
  }

  lemma DigitsDone(base: nat, acc: nat)
    ensures Digits([], base, acc, true, true) == Some(acc)
  {
  }

  lemma {:induction false} Leads(n: nat, base: nat, upper: bool)
    requires IsBase(base)
    ensures DigitOf(Numeral(n, base, upper)[0]) < base
    decreases n
  {
    hide DigitOf, Higher, DigitChar;
    if n >= base { Leads(Higher(n, base), base, upper); }
  }

  /** A single underscore between digits does not count. */
  lemma {:induction false} UnderscoreIgnored(s: string, t: string, base: nat, acc: nat, afterDigit: bool, seen: bool)
    requires t != [] && t[0] != '_' && (if s == [] then afterDigit else s[|s| - 1] != '_')
    ensures Digits(s + "_" + t, base, acc, afterDigit, seen) == Digits(s + t, base, acc, afterDigit, seen)
  {
    hide Digits, DigitOf;
    if s == [] {
      assert s + "_" + t == ['_'] + t && s + t == t == [t[0]] + t[1..];
      DigitsStep('_', t, base, acc, afterDigit, seen);
      DigitsStep(t[0], t[1..], base, acc, true, seen);
      DigitsStep(t[0], t[1..], base, acc, false, seen);
    } else {
      var c, rest := s[0], s[1..];
      assert s + "_" + t == [c] + (rest + "_" + t) && s + t == [c] + (rest + t);
      DigitsStep(c, rest + "_" + t, base, acc, afterDigit, seen);
      DigitsStep(c, rest + t, base, acc, afterDigit, seen);
      if c == '_' {
        if afterDigit { UnderscoreIgnored(rest, t, base, acc, false, seen); }
      } else if DigitOf(c) < base {
        UnderscoreIgnored(rest, t, base, acc * base + DigitOf(c), true, true);
      }
    }
  }

  /** Two in a row are an error. */
  lemma {:induction false} UnderscoresRefused(s: string, t: string, base: nat, acc: nat, afterDigit: bool, seen: bool)
    ensures Digits(s + "__" + t, base, acc, afterDigit, seen) == None
  {
    hide Digits, DigitOf;
    if s == [] {
      assert s + "__" + t == ['_'] + (['_'] + t);
      DigitsStep('_', ['_'] + t, base, acc, afterDigit, seen);
      DigitsStep('_', t, base, acc, false, seen);
    } else {
      var c, rest := s[0], s[1..];
      assert s + "__" + t == [c] + (rest + "__" + t);
      DigitsStep(c, rest + "__" + t, base, acc, afterDigit, seen);
      if c == '_' {
        if afterDigit { UnderscoresRefused(rest, t, base, acc, false, seen); }
      } else if DigitOf(c) < base {
        UnderscoresRefused(rest, t, base, acc * base + DigitOf(c), true, true);
      }
    }
  }

  /** Trimming leaves a printed number alone, with or without an apostrophe. */
  lemma DecimalIsSolid(n: nat)
    ensures Trim(Decimal(n)) == Decimal(n) && Trim(Decimal(n) + "'") == Decimal(n) + "'"
    ensures Decimal(n)[|Decimal(n)| - 1] != '\'' && '/' !in Decimal(n)
  {
    var d := Decimal(n);
    hide Decimal;
    assert d[0] in d && d[|d| - 1] in d;
  }

  // Components

  /** One component: a number, hardened by a trailing apostrophe, with white space ignored. */
  function ParseComponent(s: string): (r: Result<uint32, Error>) {
    var trimmed := Trim(s);
    var hardened := trimmed != [] && trimmed[|trimmed| - 1] == '\'';
    var value := if hardened then HARDENED else 0;
    var n := ParseInt(if hardened then Trim(trimmed[..|trimmed| - 1]) else trimmed);
    if n.None? then Err(InvalidComponent)
    else if n.value < 0 || n.value > MAX_UINT32 - value then Err(if hardened then OutOfHardenedRange else OutOfRange)
    else Ok(value + n.value)
  }

  function PrintComponent(c: uint32): string {
    if c >= HARDENED then Decimal(c - HARDENED) + "'" else Decimal(c)
  }

  /** A printed component reads back as itself, at every value and either side of the hardened bound. */
  lemma ComponentRoundTrip(c: uint32)
    ensures ParseComponent(PrintComponent(c)) == Ok(c) && '/' !in PrintComponent(c)
  {
    hide ParseInt, Trim, Decimal, IsSpace;
    var n := if c >= HARDENED then c - HARDENED else c;
    var d := Decimal(n);
    ParseDecimal(n);
    DecimalIsSolid(n);
    if c >= HARDENED {
      assert (d + "'")[..|d|] == d;
    }
  }

  /** One result after another, or the first error. */
  function Then(a: Result<Path, Error>, b: Result<Path, Error>): Result<Path, Error> {
    if a.Err? then a else if b.Err? then b else Ok(a.value + b.value)
  }

  function ParseOne(piece: string): Result<Path, Error> {
    var c := ParseComponent(piece);
    if c.Err? then Err(c.error) else Ok([c.value])
  }

  /** All components in order, or the first error. */
  function ParseAll(pieces: seq<string>): Result<Path, Error> {
    if pieces == [] then Ok([]) else Then(ParseAll(pieces[..|pieces| - 1]), ParseOne(pieces[|pieces| - 1]))
  }

  lemma ThenAssociates(a: Result<Path, Error>, b: Result<Path, Error>, c: Result<Path, Error>)
    ensures Then(Then(a, b), c) == Then(a, Then(b, c))
  {
    if a.Ok? && b.Ok? && c.Ok? { assert a.value + b.value + c.value == a.value + (b.value + c.value); }
  }

  lemma {:induction false} ParseAllJoins(a: seq<string>, b: seq<string>)
    ensures ParseAll(a + b) == Then(ParseAll(a), ParseAll(b))
  {
    hide ParseOne;
    if b == [] {
      assert a + b == a;
      assert ParseAll(a).Ok? ==> ParseAll(a).value + [] == ParseAll(a).value;
    } else {
      var init, last := b[..|b| - 1], b[|b| - 1];
      assert (a + b)[..|a + b| - 1] == a + init && (a + b)[|a + b| - 1] == last;
      ParseAllJoins(a, init);
      hide Then;
      ThenAssociates(ParseAll(a), ParseAll(init), ParseOne(last));
    }
  }

  // Paths

  /** What a path string means: absolute after "m", otherwise below the default root. */
  function Meaning(path: string): Result<Path, Error> {
    var pieces := Split(path);
    var lead := Trim(pieces[0]);
    if lead == "" then Err(AmbiguousPath)
    else if lead == "m" then if |pieces| == 1 then Err(EmptyPath) else ParseAll(pieces[1..])
    else Then(Ok(DEFAULT_ROOT), ParseAll(pieces))
  }

  /** Appends the components one by one, stopping at the first bad one. */
  method AppendComponents(root: Path, components: seq<string>) returns (r: Result<Path, Error>)
    ensures r == Then(Ok(root), ParseAll(components))
  {
    hide ParseComponent;
    var result := root;
    for i := 0 to |components|
      invariant ParseAll(components[..i]).Ok? && result == root + ParseAll(components[..i]).value
    {
      assert components[..i + 1][..i] == components[..i];
      var value := ParseComponent(components[i]);
      if value.Err? {
        ParseAllJoins(components[..i + 1], components[i + 1..]);
        assert components[..i + 1] + components[i + 1..] == components;
        return Err(value.error);
      }
      result := result + [value.value];
    }
    assert components[..|components|] == components;
    r := Ok(result);
  }

  method ParseDerivationPath(path: string) returns (r: Result<Path, Error>)
    ensures r == Meaning(path)
  {
    hide Split, Trim, ParseAll;
    var result: Path := [];
    var components := Split(path);
    if Trim(components[0]) == "" {
      return Err(AmbiguousPath);
    } else if Trim(components[0]) == "m" {
      components := components[1..];
    } else {
      result := result + DEFAULT_ROOT;
    }
    if |components| == 0 { return Err(EmptyPath); }
    r := AppendComponents(result, components);
    assert ParseAll(components).Ok? ==> [] + ParseAll(components).value == ParseAll(components).value;
    assert [] + DEFAULT_ROOT == DEFAULT_ROOT;
  }

  /** The printed form. */
  function Printed(path: Path): string {
    if path == [] then "m" else Printed(path[..|path| - 1]) + "/" + PrintComponent(path[|path| - 1])
  }

  method ToString(path: Path) returns (s: string)
    ensures s == Printed(path)
  {
    s := "m";
    for i := 0 to |path|
      invariant s == Printed(path[..i])
    {
      assert path[..i + 1][..i] == path[..i];
      var component, hardened: bool := path[i], false;
      if component >= HARDENED {
        component := component - HARDENED;
        hardened := true;
      }
      s := s + "/" + Decimal(component);
      if hardened { s := s + "'"; }
    }
    assert path[..|path|] == path;
  }

  /** The pieces of a printed path are "m" and its components, which parse back to the path. */
  lemma {:induction false} PrintedPieces(path: Path)
    ensures var pieces := Split(Printed(path));
            |pieces| == |path| + 1 && pieces[0] == "m" && ParseAll(pieces[1..]) == Ok(path)
  {
    hide Split, ParseComponent, PrintComponent, ParseAll;
    if path == [] {
      SplitWhole("m");
      assert Split("m")[1..] == [];
      ParsesNothing();
    } else {
      var below, last := path[..|path| - 1], path[|path| - 1];
      PrintedPieces(below);
      ComponentRoundTrip(last);
      SplitAtSlash(Printed(below), PrintComponent(last));
      SplitWhole(PrintComponent(last));
      PieceAdded(Split(Printed(below)), below, last);
      assert path == below + [last];
    }
  }

  lemma ParsesNothing()
    ensures ParseAll([]) == Ok([])
  {
  }

  lemma PieceAdded(pieces: seq<string>, below: Path, last: uint32)
    requires pieces != [] && ParseAll(pieces[1..]) == Ok(below)
    requires ParseComponent(PrintComponent(last)) == Ok(last)
    ensures ParseAll((pieces + [PrintComponent(last)])[1..]) == Ok(below + [last])
  {
    hide ParseComponent, PrintComponent;
    var all := pieces[1..] + [PrintComponent(last)];
    assert (pieces + [PrintComponent(last)])[1..] == all;
    assert all[..|all| - 1] == pieces[1..];
  }

  /** Parsing the printed form gives a path back exactly when the path is not empty. */
  lemma RoundTrip(path: Path)
    ensures Meaning(Printed(path)) == Ok(path) <==> path != []
    ensures path == [] ==> Meaning(Printed(path)) == Err(EmptyPath)
  {
    hide Split, ParseAll, Printed;
    PrintedPieces(path);
  }

  /** A relative path means what it means below the printed default root. */
  lemma RelativeIsBelowRoot(path: string)
    requires Trim(Split(path)[0]) != "" && Trim(Split(path)[0]) != "m"
    ensures Meaning(path) == Meaning(Printed(DEFAULT_ROOT) + "/" + path)
  {
    hide Split, ParseAll, Printed;
    var root := Split(Printed(DEFAULT_ROOT));
    PrintedPieces(DEFAULT_ROOT);
    SplitAtSlash(Printed(DEFAULT_ROOT), path);
    ParseAllJoins(root[1..], Split(path));
    assert (root + Split(path))[1..] == root[1..] + Split(path);
  }
}
