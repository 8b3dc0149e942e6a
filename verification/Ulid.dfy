/** ULID identifiers: 26 Crockford Base32 symbols for 128 bits, with the newtype's overflow guard. */
module Ulid {
  import opened Wrappers
  import opened Text

  const LENGTH: nat := 26

  /** 2^128 */
  const BOUND: nat := 0x1_0000_0000_0000_0000_0000_0000_0000_0000

  /** A decoded identifier is a `u128`. */
  type U128 = v: nat | v < BOUND

  datatype DecodeError = InvalidLength | InvalidChar

  // --- Crockford Base32 ---------------------------------------------------------

  /** `0-9A-HJKMNP-TV-Z`: digits, then letters without I, L, O and U. */
  function Symbol(d: nat): (c: char)
    requires d < 32
    ensures c < '\U{0080}' && UpperChar(c) == c
  {
    if d < 10 then ('0' as int + d) as char
    else if d < 18 then ('A' as int + (d - 10)) as char
    else if d < 20 then ('J' as int + (d - 18)) as char
    else if d < 22 then ('M' as int + (d - 20)) as char
    else if d < 27 then ('P' as int + (d - 22)) as char
    else ('V' as int + (d - 27)) as char
  }

  /** The value of a symbol in either case. */
  function Digit(c: char): (d: Option<nat>)
    ensures d.Some? ==> d.value < 32
  {
    var u := UpperChar(c);
    if '0' <= u <= '9' then Some(u as int - '0' as int)
    else if 'A' <= u <= 'H' then Some(u as int - 'A' as int + 10)
    else if 'J' <= u <= 'K' then Some(u as int - 'J' as int + 18)
    else if 'M' <= u <= 'N' then Some(u as int - 'M' as int + 20)
    else if 'P' <= u <= 'T' then Some(u as int - 'P' as int + 22)
    else if 'V' <= u <= 'Z' then Some(u as int - 'V' as int + 27)
    else None
  }

  /** The alphabet of the ULID specification, in order of value. */
  const ALPHABET: string := "0123456789ABCDEFGHJKMNPQRSTVWXYZ"

  /** The symbols are that alphabet's, and a character has a value exactly when it is one of them in either case. */
  lemma AlphabetExactly(c: char, d: nat)
    requires d < 32
    ensures Symbol(d) == ALPHABET[d]
    ensures Digit(c) == Some(d) <==> UpperChar(c) == ALPHABET[d]
  {
    SymbolExactly(d);
    if UpperChar(c) == Symbol(d) {
      DigitOfSymbol(d);
    }
    if Digit(c) == Some(d) {
      SymbolOfDigit(c);
    }
  }

  lemma SymbolExactly(d: nat)
    requires d < 32
    ensures Symbol(d) == ALPHABET[d]
  {
    assert |ALPHABET| == 32;
  }

  lemma DigitOfSymbol(d: nat)
    requires d < 32
    ensures Digit(Symbol(d)) == Some(d)
  {
  }

  lemma SymbolOfDigit(c: char)
    requires Digit(c).Some?
    ensures Symbol(Digit(c).value) == UpperChar(c) && c < '\U{0080}'
  {
  }

  lemma LowDigit(c: char)
    requires Digit(c).Some?
    ensures Digit(c).value <= 7 <==> '0' <= c <= '7'
  {
  }

  lemma SymbolsInOrder(a: nat, b: nat)
    requires a < b < 32
    ensures Symbol(a) < Symbol(b)
  {
  }

  predicate Base32(s: string) {
    forall i :: 0 <= i < |s| ==> Digit(s[i]).Some?
  }

  /** The number a Base32 string denotes, with no limit on its bits. */
  function Value(s: string): nat
    requires Base32(s)
  {
    if s == [] then 0 else Value(s[..|s| - 1]) * 32 + Digit(s[|s| - 1]).value
  }

  // --- the ulid crate -----------------------------------------------------------

  /** Shifting a `u128` five bits at a symbol; bits shifted out at the top are lost. */
  function Shifted(s: string): (v: U128)
    requires Base32(s)
  {
    if s == [] then 0
    else
      ShiftFits(Shifted(s[..|s| - 1]), Digit(s[|s| - 1]).value);
      (Shifted(s[..|s| - 1]) * 32) % BOUND + Digit(s[|s| - 1]).value
  }

  /** A multiple of 32 leaves room for five more bits below the bound. */
  lemma ShiftFits(v: nat, d: nat)
    requires d < 32
    ensures (v * 32) % BOUND + d == (v * 32 + d) % BOUND < BOUND
  {
    var q, r := v / (BOUND / 32), v % (BOUND / 32);
    assert v == q * (BOUND / 32) + r;
    assert v * 32 == q * BOUND + r * 32;
    assert 0 <= r * 32 + d < BOUND;
    ModIs(v * 32, q, r * 32);
    ModIs(v * 32 + d, q, r * 32 + d);
  }

  lemma ModIs(n: nat, q: nat, r: nat)
    requires n == q * BOUND + r && r < BOUND
    ensures n % BOUND == r
  {
  }

  /** `Ulid::from_str` */
  function Decode(s: string): Result<U128, DecodeError> {
    if ByteLength(s) != LENGTH then Err(InvalidLength)
    else if !Base32(s) then Err(InvalidChar)
    else Ok(Shifted(s))
  }

  /** The lowest `n` symbols of `v`. */
  function Symbols(v: nat, n: nat): (s: string)
    ensures |s| == n
  {
    if n == 0 then [] else Symbols(v / 32, n - 1) + [Symbol(v % 32)]
  }

  /** `Display` */
  function Print(v: U128): (s: string)
    ensures |s| == LENGTH
  {
    Symbols(v, LENGTH)
  }

  // --- the newtype --------------------------------------------------------------

  /** `from_str` of the identifier newtypes: decoding, then the guard on the first character. */
  function Parse(s: string): Result<U128, DecodeError> {
    match Decode(s)
    case Err(e) => Err(e)
    case Ok(v) => if s != [] && '0' <= s[0] <= '7' then Ok(v) else Err(InvalidChar)
  }

  // --- arithmetic of the symbols ------------------------------------------------

  function Pow32(n: nat): (p: nat)
    ensures p >= 1
  {
    if n == 0 then 1 else 32 * Pow32(n - 1)
  }

  lemma Pow32Bound()
    ensures 8 * Pow32(25) == BOUND
  {
    assert Pow32(5) == 0x200_0000 by { assert Pow32(3) == 0x8000; }
    assert Pow32(10) == 0x200_0000 * 0x200_0000 by { assert Pow32(7) == 0x8000 * 0x10_0000; }
    assert Pow32(13) == Pow32(10) * 0x8000;
    assert Pow32(15) == Pow32(10) * 0x200_0000;
    assert Pow32(18) == Pow32(15) * 0x8000;
    assert Pow32(20) == Pow32(15) * 0x200_0000;
    assert Pow32(23) == Pow32(20) * 0x8000;
  }

  lemma {:induction false} ValueBound(s: string)
    requires Base32(s)
    ensures Value(s) < Pow32(|s|)
  {
    if s != [] { ValueBound(s[..|s| - 1]); }
  }

  lemma {:induction false} ShiftedIsMod(s: string)
    requires Base32(s)
    ensures Shifted(s) == Value(s) % BOUND
  {
    hide Digit;
    if s != [] {
      ShiftedIsMod(s[..|s| - 1]);
      ShiftOfMod(Value(s[..|s| - 1]), Digit(s[|s| - 1]).value);
    }
  }

  /** Losing high bits early loses nothing that would have stayed. */
  lemma ShiftOfMod(n: nat, d: nat)
    requires d < 32
    ensures ((n % BOUND) * 32) % BOUND + d == (n * 32 + d) % BOUND
  {
    ShiftFits(n % BOUND, d);
    var q, m := n / BOUND, (n % BOUND) * 32 + d;
    Recombine(n, d, q, n % BOUND, m / BOUND, m % BOUND);
    ModIs(n * 32 + d, q * 32 + m / BOUND, m % BOUND);
  }

  lemma Recombine(n: nat, d: nat, q: nat, r: nat, q': nat, r': nat)
    requires n == q * BOUND + r && r * 32 + d == q' * BOUND + r'
    ensures n * 32 + d == (q * 32 + q') * BOUND + r'
  {
  }

  /** Taking the first symbol off a string. */
  lemma {:induction false} ValueHead(s: string)
    requires Base32(s) && s != []
    ensures Value(s) == Digit(s[0]).value * Pow32(|s| - 1) + Value(s[1..])
  {
    hide Digit;
    if |s| == 1 {
      assert s[..0] == [] && s[1..] == [];
    } else {
      var init := s[..|s| - 1];
      ValueHead(init);
      assert s[1..][..|s| - 2] == init[1..];
      assert s[1..][|s| - 2] == s[|s| - 1];
      ScaledHead(Value(init), Digit(s[0]).value, Pow32(|s| - 2), Value(init[1..]), Digit(s[|s| - 1]).value);
    }
  }

  lemma ScaledHead(a: nat, d: nat, p: nat, b: nat, e: nat)
    requires a == d * p + b
    ensures a * 32 + e == d * (32 * p) + (b * 32 + e)
  {
    assert (d * p) * 32 == d * (32 * p);
  }

  /** The guard accepts exactly the strings whose 130-bit value fits 128 bits. */
  lemma GuardIsBound(s: string)
    requires Base32(s) && |s| == LENGTH
    ensures '0' <= s[0] <= '7' <==> Value(s) < BOUND
  {
    hide Digit, Value, Pow32;
    LowDigit(s[0]);
    ValueHead(s);
    ValueBound(s[1..]);
    Pow32Bound();
    LeadBelow(Digit(s[0]).value, Pow32(25), Value(s[1..]));
  }

  lemma LeadBelow(d: nat, p: nat, x: nat)
    requires x < p
    ensures d <= 7 <==> d * p + x < 8 * p
  {
    if d <= 7 {
      assert d * p <= 7 * p;
    } else {
      assert d * p >= 8 * p;
    }
  }

  /** A string is accepted exactly when it is 26 symbols of a 128-bit value, and stands for that value. */
  lemma ParseAccepts(s: string, v: U128)
    ensures Parse(s) == Ok(v) <==> |s| == 26 && Base32(s) && Value(s) == v
  {
    if Base32(s) {
      forall i | 0 <= i < |s| ensures s[i] < '\U{0080}' {
        SymbolOfDigit(s[i]);
      }
      ByteLengthAscii(s);
      if |s| == LENGTH {
        GuardIsBound(s);
        ShiftedIsMod(s);
        if Value(s) < BOUND { ModIs(Value(s), 0, Value(s)); }
      }
    }
  }

  /** What is refused is refused for its size, or else for its symbols. */
  lemma RefusedFor(s: string)
    ensures Parse(s) == Err(InvalidLength) <==> ByteLength(s) != 26
    ensures ByteLength(s) == 26 && Parse(s).Err? ==> Parse(s) == Err(InvalidChar)
  {
  }

  /** Without the guard, a 26-symbol string of a larger value stands for another identifier. */
  lemma DecodeAliases(s: string)
    requires |s| == LENGTH && Base32(s)
    ensures Decode(s) == Ok(Value(s) % BOUND)
    ensures Parse(s).Err? <==> Value(s) >= BOUND
  {
    forall i | 0 <= i < |s| ensures s[i] < '\U{0080}' {
      SymbolOfDigit(s[i]);
    }
    ByteLengthAscii(s);
    ShiftedIsMod(s);
    GuardIsBound(s);
  }

  // --- text and value correspond ------------------------------------------------

  lemma {:induction false} SymbolsBase32(v: nat, n: nat)
    ensures Base32(Symbols(v, n))
  {
    if n > 0 {
      SymbolsBase32(v / 32, n - 1);
      DigitOfSymbol(v % 32);
      var s := Symbols(v, n);
      assert forall i :: 0 <= i < n - 1 ==> s[i] == Symbols(v / 32, n - 1)[i];
    }
  }

  lemma {:induction false} ValueOfSymbols(v: nat, n: nat)
    requires v < Pow32(n)
    ensures Base32(Symbols(v, n)) && Value(Symbols(v, n)) == v
  {
    SymbolsBase32(v, n);
    if n > 0 {
      ValueOfSymbols(v / 32, n - 1);
      DigitOfSymbol(v % 32);
      assert Symbols(v, n)[..n - 1] == Symbols(v / 32, n - 1);
    }
  }

  lemma ValueOfPrint(v: U128)
    ensures Base32(Print(v)) && Value(Print(v)) == v
  {
    Pow32Bound();
    assert Pow32(26) == 32 * Pow32(25);
    ValueOfSymbols(v, LENGTH);
  }

  /** Parsing what is printed gives the identifier back. */
  lemma ParseOfPrint(v: U128)
    ensures Parse(Print(v)) == Ok(v)
  {
    ValueOfPrint(v);
    ParseAccepts(Print(v), v);
  }

  lemma {:induction false} SymbolsOfValue(s: string)
    requires Base32(s)
    ensures Symbols(Value(s), |s|) == Upper(s)
  {
    hide Digit, Symbol, Symbols, Upper, UpperChar;
    if s == [] {
      assert Symbols(0, 0) == Upper([]) by { NoSymbols(); }
    } else {
      var init, last := s[..|s| - 1], s[|s| - 1];
      SymbolsOfValue(init);
      LastSymbol(Value(init), Digit(last).value, |init|);
      SymbolOfDigit(last);
      UpperOfLonger(init, last);
      assert init + [last] == s;
    }
  }

  lemma NoSymbols()
    ensures Symbols(0, 0) == [] == Upper([])
  {
  }

  lemma LastSymbol(v: nat, d: nat, n: nat)
    requires d < 32
    ensures Symbols(v * 32 + d, n + 1) == Symbols(v, n) + [Symbol(d)]
  {
    assert (v * 32 + d) / 32 == v && (v * 32 + d) % 32 == d;
  }

  lemma UpperOfLonger(s: string, c: char)
    ensures Upper(s + [c]) == Upper(s) + [UpperChar(c)]
  {
  }

  /** Printing what was parsed upper-cases it: the accepted spellings of one identifier differ in case only. */
  lemma {:induction false} PrintOfParse(s: string)
    requires Parse(s).Ok?
    ensures Print(Parse(s).value) == Upper(s)
  {
    ParseAccepts(s, Parse(s).value);
    SymbolsOfValue(s);
  }

  lemma ParsedAlikeIffSameUpToCase(s: string, t: string)
    requires Parse(s).Ok? && Parse(t).Ok?
    ensures Parse(s) == Parse(t) <==> Upper(s) == Upper(t)
  {
    PrintOfParse(s);
    PrintOfParse(t);
    ParseOfPrint(Parse(s).value);
    ParseOfPrint(Parse(t).value);
  }

  /** Text order: the first difference decides. */
  predicate TextBefore(a: string, b: string)
    requires |a| == |b|
  {
    a != [] && (a[0] < b[0] || (a[0] == b[0] && TextBefore(a[1..], b[1..])))
  }

  lemma {:induction false} SymbolsHead(v: nat, n: nat)
    requires n > 0 && v < Pow32(n)
    ensures v / Pow32(n - 1) < 32
    ensures Symbols(v, n) == [Symbol(v / Pow32(n - 1))] + Symbols(v % Pow32(n - 1), n - 1)
  {
    hide Symbol;
    if n == 1 {
      assert v % 32 == v && Symbols(v / 32, 0) == [];
      assert v / 1 == v && v % 1 == 0;
    } else {
      var p := Pow32(n - 2);
      SymbolsHead(v / 32, n - 1);
      DivMod32(v, p);
      var low := v % (32 * p);
      assert Symbols(low, n - 1) == Symbols(low / 32, n - 2) + [Symbol(low % 32)];
      assert Symbols(v, n) == Symbols(v / 32, n - 1) + [Symbol(v % 32)];
    }
  }

  /** Dividing by 32 first, or last. */
  lemma DivMod32(v: nat, p: nat)
    requires p >= 1
    ensures v / (32 * p) == (v / 32) / p
    ensures (v % (32 * p)) / 32 == (v / 32) % p
    ensures (v % (32 * p)) % 32 == v % 32
  {
    var a, d := v / 32, v % 32;
    var q, r := a / p, a % p;
    assert a == q * p + r;
    var low := r * 32 + d;
    assert r <= p - 1;
    assert low < 32 * p;
    assert v == q * (32 * p) + low by {
      assert v == a * 32 + d;
      assert a * 32 == (q * p) * 32 + r * 32;
      assert (q * p) * 32 == q * (32 * p);
    }
    DivModIs(v, 32 * p, q, low);
  }

  lemma DivModIs(n: nat, m: nat, q: nat, r: nat)
    requires m > 0 && n == q * m + r && r < m
    ensures n / m == q && n % m == r
  {
    var k := n / m - q;
    assert k * m == r - n % m;
    AtLeastOnce(k, m);
  }

  lemma AtLeastOnce(k: int, m: int)
    requires m >= 0
    ensures k == 0 || k * m >= m || k * m <= -m
  {
    if k >= 1 {
      assert (k - 1) * m >= 0;
    } else if k <= -1 {
      assert (-k - 1) * m >= 0;
    }
  }

  lemma TextBeforeCons(c: char, x: string, d: char, y: string)
    requires |x| == |y|
    ensures TextBefore([c] + x, [d] + y) <==> c < d || (c == d && TextBefore(x, y))
  {
    assert ([c] + x)[1..] == x && ([d] + y)[1..] == y;
  }

  /** The leading digit decides, then the rest. */
  lemma LeadDecides(a: nat, x: nat, b: nat, y: nat, p: nat)
    requires x < p && y < p
    ensures a * p + x < b * p + y <==> a < b || (a == b && x < y)
  {
    AtLeastOnce(b - a, p);
    assert (b - a) * p == b * p - a * p;
    if a > b { assert (a - b - 1) * p >= 0; }
  }

  lemma SymbolsCompare(a: nat, b: nat)
    requires a < 32 && b < 32
    ensures Symbol(a) < Symbol(b) <==> a < b
    ensures Symbol(a) == Symbol(b) <==> a == b
  {
    DigitOfSymbol(a);
    DigitOfSymbol(b);
    if a < b { SymbolsInOrder(a, b); } else if b < a { SymbolsInOrder(b, a); }
  }

  lemma LeadingSymbol(v: nat, n: nat) returns (lead: nat, rest: nat)
    requires n > 0 && v < Pow32(n)
    ensures lead < 32 && rest < Pow32(n - 1) && v == lead * Pow32(n - 1) + rest
    ensures Symbols(v, n) == [Symbol(lead)] + Symbols(rest, n - 1)
  {
    hide Symbol, Symbols, Pow32;
    SymbolsHead(v, n);
    lead, rest := v / Pow32(n - 1), v % Pow32(n - 1);
  }

  /** One more leading symbol keeps number order and text order together. */
  lemma LeadKeepsOrder(a: nat, x: nat, b: nat, y: nat, p: nat, s: string, t: string)
    requires a < 32 && b < 32 && x < p && y < p && |s| == |t|
    requires x < y <==> TextBefore(s, t)
    ensures a * p + x < b * p + y <==> TextBefore([Symbol(a)] + s, [Symbol(b)] + t)
  {
    hide Symbol;
    TextBeforeCons(Symbol(a), s, Symbol(b), t);
    LeadDecides(a, x, b, y, p);
    SymbolsCompare(a, b);
  }

  lemma NoSymbolsNoOrder(v: nat, w: nat)
    requires v < Pow32(0) && w < Pow32(0)
    ensures v == w && !TextBefore(Symbols(v, 0), Symbols(w, 0))
  {
  }

  lemma {:induction false} SymbolsInTextOrder(v: nat, w: nat, n: nat)
    requires v < Pow32(n) && w < Pow32(n)
    ensures v < w <==> TextBefore(Symbols(v, n), Symbols(w, n))
  {
    hide Symbol, Symbols, Pow32, TextBefore;
    if n == 0 {
      NoSymbolsNoOrder(v, w);
    } else {
      var a, x := LeadingSymbol(v, n);
      var b, y := LeadingSymbol(w, n);
      SymbolsInTextOrder(x, y, n - 1);
      LeadKeepsOrder(a, x, b, y, Pow32(n - 1), Symbols(x, n - 1), Symbols(y, n - 1));
    }
  }

  /** Identifiers order as their printed text does, so sorting by either is the same. */
  lemma PrintedInOrder(v: U128, w: U128)
    ensures v < w <==> TextBefore(Print(v), Print(w))
  {
    Pow32Bound();
    assert Pow32(26) == 32 * Pow32(25);
    SymbolsInTextOrder(v, w, LENGTH);
  }

  // --- operation identities -----------------------------------------------------

  datatype OperationError = InvalidOperationId

  /** `parse_operation_id` */
  function ParseOperationId(value: string): Result<U128, OperationError> {
    match Parse(value)
    case Err(_) => Err(InvalidOperationId)
    case Ok(id) =>
      if ByteLength(value) != 26 || Upper(value) != Print(id) then Err(InvalidOperationId) else Ok(id)
  }

  /** Exactly the spellings of the identifier are accepted; the extra check never turns one away. */
  lemma OperationIdsAreCanonical(value: string, id: U128)
    ensures ParseOperationId(value) == Ok(id) <==> Upper(value) == Print(id)
  {
    if Parse(value).Ok? {
      PrintOfParse(value);
      ParseOfPrint(Parse(value).value);
      ParseAccepts(value, Parse(value).value);
    }
    if Upper(value) == Print(id) {
      ValueOfPrint(id);
      SameValueOfUpper(value);
      ParseAccepts(value, id);
      PrintOfParse(value);
    }
    if ParseOperationId(value) == Ok(id) {
      ParseAccepts(value, id);
    }
  }

  lemma DigitOfUpper(c: char)
    ensures Digit(UpperChar(c)) == Digit(c)
  {
  }

  lemma {:induction false} SameValueOfUpper(s: string)
    ensures Base32(Upper(s)) <==> Base32(s)
    ensures Base32(s) ==> Value(Upper(s)) == Value(s)
  {
    hide Digit, UpperChar;
    var u := Upper(s);
    forall i | 0 <= i < |s| ensures Digit(u[i]) == Digit(s[i]) {
      DigitOfUpper(s[i]);
    }
    if s != [] && Base32(s) {
      var n := |s| - 1;
      SameValueOfUpper(s[..n]);
      assert u[..n] == Upper(s[..n]);
    }
  }
}
