/**
 * The unit-conversion pipeline: a table of unit tokens (read from a text
 * file of `token-name` lines) decides, the first time a column is seen, which
 * units its values carry. The column is renamed `key(name)...`, the tokens are
 * cut out of its values, and values that then read as numbers become numbers.
 */
module UnitConversion {
  import opened Text
  import opened Dicts
  import opened Values

  /** The conversion fixed for a column: its new name and the unit tokens cut from its values. */
  datatype Mapping = Mapping(newKey: string, tokens: seq<string>)

  /** The unit table: token to unit name, in file order. */
  type UnitTable = ODict<string, string>

  /** `line.strip().split('-')` */
  function Parts(line: string): seq<string> {
    Split(Strip(line), '-')
  }

  /** The parts of every line of the unit file. */
  function LineParts(lines: seq<string>): (r: seq<seq<string>>)
    ensures |r| == |lines|
    ensures forall j | 0 <= j < |r| :: r[j] == Parts(lines[j])
  {
    seq(|lines|, j requires 0 <= j < |lines| => Parts(lines[j]))
  }

  /**
   * `parse_unit_types` over the split lines of the unit file: each line
   * adds its token and name to the table. A line that does not split into
   * exactly two parts raises ValueError; the lines before it stay in the table.
   */
  function UnitLines(units: UnitTable, rows: seq<seq<string>>): (r: (UnitTable, bool))
    requires units.Valid()
    ensures r.0.Valid()
    decreases |rows|
  {
    if rows == [] then (units, true)
    else
      var prev := UnitLines(units, rows[..|rows| - 1]);
      var parts := rows[|rows| - 1];
      if !prev.1 then prev
      else if |parts| != 2 then (prev.0, false)
      else (prev.0.Put(parts[0], parts[1]), true)
  }

  lemma UnitLinesSnoc(units: UnitTable, rows: seq<seq<string>>, i: nat)
    requires units.Valid()
    requires i < |rows|
    ensures UnitLines(units, rows[..i + 1]) ==
      var prev := UnitLines(units, rows[..i]);
      if !prev.1 then prev
      else if |rows[i]| != 2 then (prev.0, false)
      else (prev.0.Put(rows[i][0], rows[i][1]), true)
  {
    assert rows[..i + 1][..i] == rows[..i];
  }

  /** Once a unit line has raised, no later line changes anything. */
  lemma {:induction false} UnitLinesStuck(units: UnitTable, rows: seq<seq<string>>, k: nat)
    requires units.Valid()
    requires k <= |rows|
    requires !UnitLines(units, rows[..k]).1
    ensures UnitLines(units, rows) == UnitLines(units, rows[..k])
    decreases |rows| - k
  {
    if k < |rows| {
      UnitLinesSnoc(units, rows, k);
      UnitLinesStuck(units, rows, k + 1);
    } else {
      assert rows[..k] == rows;
    }
  }

  /** The (token, name) pairs of lines that split in two. */
  function UnitPairs(rows: seq<seq<string>>): (r: seq<(string, string)>)
    requires forall j | 0 <= j < |rows| :: |rows[j]| == 2
    ensures |r| == |rows|
    decreases |rows|
  {
    if rows == [] then []
    else
      var last := rows[|rows| - 1];
      UnitPairs(rows[..|rows| - 1]) + [(last[0], last[1])]
  }

  /** The unit file is accepted exactly when every line holds one `-`-separated token and name. */
  lemma {:induction false} UnitLinesOk(units: UnitTable, rows: seq<seq<string>>)
    requires units.Valid()
    ensures UnitLines(units, rows).1 <==> forall j | 0 <= j < |rows| :: |rows[j]| == 2
    decreases |rows|
  {
    if rows != [] {
      var init := rows[..|rows| - 1];
      UnitLinesOk(units, init);
      var prev := UnitLines(units, init);
      assert UnitLines(units, rows).1 == (prev.1 && |rows[|rows| - 1]| == 2);
      assert forall j | 0 <= j < |init| :: init[j] == rows[j];
    }
  }

  /** An accepted file assigns its lines' pairs in order: a token listed twice keeps its last name. */
  lemma {:induction false} UnitLinesTable(units: UnitTable, rows: seq<seq<string>>)
    requires units.Valid()
    requires forall j | 0 <= j < |rows| :: |rows[j]| == 2
    ensures UnitLines(units, rows).0 == PutAll(units, UnitPairs(rows))
    decreases |rows|
  {
    if rows != [] {
      var init := rows[..|rows| - 1];
      var last := rows[|rows| - 1];
      UnitLinesTable(units, init);
      UnitLinesOk(units, init);
      assert UnitLines(units, init).1;
      var pairs := UnitPairs(rows);
      assert pairs == UnitPairs(init) + [(last[0], last[1])];
      assert pairs[..|pairs| - 1] == UnitPairs(init);
    }
  }

  /**
   * The unit tokens of `typs` that occur in a value, in table order, and the
   * column name they give: `key(name1)(name2)...`.
   */
  function Detect(names: map<string, string>, typs: seq<string>, key: string, text: string): (m: Mapping)
    requires forall j | 0 <= j < |typs| :: typs[j] in names
    decreases |typs|
  {
    if typs == [] then Mapping(key, [])
    else
      var m := Detect(names, typs[..|typs| - 1], key, text);
      var typ := typs[|typs| - 1];
      if Contains(text, typ) then Mapping(m.newKey + "(" + names[typ] + ")", m.tokens + [typ]) else m
  }

  lemma DetectSnoc(names: map<string, string>, typs: seq<string>, key: string, text: string, i: nat)
    requires forall j | 0 <= j < |typs| :: typs[j] in names
    requires i < |typs|
    ensures Detect(names, typs[..i + 1], key, text) ==
      var m := Detect(names, typs[..i], key, text);
      if Contains(text, typs[i]) then Mapping(m.newKey + "(" + names[typs[i]] + ")", m.tokens + [typs[i]]) else m
  {
    assert typs[..i + 1][..i] == typs[..i];
  }

  /** `"".join("({})".format(names[t]) for t in tokens)` */
  function Suffix(names: map<string, string>, tokens: seq<string>): string
    requires forall j | 0 <= j < |tokens| :: tokens[j] in names
    decreases |tokens|
  {
    if tokens == [] then ""
    else Suffix(names, tokens[..|tokens| - 1]) + "(" + names[tokens[|tokens| - 1]] + ")"
  }

  /** The detected tokens are exactly the tokens of the table that occur in the value. */
  lemma {:induction false} DetectTokens(names: map<string, string>, typs: seq<string>, key: string, text: string)
    requires forall j | 0 <= j < |typs| :: typs[j] in names
    ensures forall t :: t in Detect(names, typs, key, text).tokens <==> t in typs && Contains(text, t)
    decreases |typs|
  {
    if typs != [] {
      var init := typs[..|typs| - 1];
      var typ := typs[|typs| - 1];
      DetectTokens(names, init, key, text);
      var m := Detect(names, init, key, text);
      var r := Detect(names, typs, key, text);
      assert r.tokens == if Contains(text, typ) then m.tokens + [typ] else m.tokens;
      assert typs == init + [typ];
    }
  }

  /** The detected tokens keep the table's order: they are the table's tokens with the absent ones left out. */
  lemma {:induction false} DetectOrder(names: map<string, string>, typs: seq<string>, key: string, text: string)
    requires forall j | 0 <= j < |typs| :: typs[j] in names
    ensures forall j | 0 <= j < |Detect(names, typs, key, text).tokens| ::
      exists k | 0 <= k < |typs| :: typs[k] == Detect(names, typs, key, text).tokens[j]
        && Detect(names, typs, key, text).tokens[..j] == Detect(names, typs[..k], key, text).tokens
    decreases |typs|
  {
    if typs != [] {
      var init := typs[..|typs| - 1];
      var typ := typs[|typs| - 1];
      DetectOrder(names, init, key, text);
      var m := Detect(names, init, key, text);
      var r := Detect(names, typs, key, text);
      assert r.tokens == if Contains(text, typ) then m.tokens + [typ] else m.tokens;
      forall j | 0 <= j < |r.tokens|
        ensures exists k | 0 <= k < |typs| :: typs[k] == r.tokens[j] && r.tokens[..j] == Detect(names, typs[..k], key, text).tokens
      {
        if j < |m.tokens| {
          var k :| 0 <= k < |init| && init[k] == m.tokens[j] && m.tokens[..j] == Detect(names, init[..k], key, text).tokens;
          assert init[..k] == typs[..k];
          assert r.tokens[..j] == m.tokens[..j];
          assert typs[k] == r.tokens[j];
        } else {
          assert init == typs[..|typs| - 1];
          assert r.tokens[..j] == m.tokens;
          assert typs[|typs| - 1] == r.tokens[j];
        }
      }
    } else {
      assert Detect(names, typs, key, text).tokens == [];
    }
  }

  /** Every detected token has a unit name. */
  lemma {:induction false} DetectNames(names: map<string, string>, typs: seq<string>, key: string, text: string)
    requires forall j | 0 <= j < |typs| :: typs[j] in names
    ensures forall j | 0 <= j < |Detect(names, typs, key, text).tokens| :: Detect(names, typs, key, text).tokens[j] in names
    decreases |typs|
  {
    if typs != [] {
      DetectNames(names, typs[..|typs| - 1], key, text);
    }
  }

  /** The new column name is the key followed by one `(name)` per detected token. */
  lemma {:induction false} DetectKey(names: map<string, string>, typs: seq<string>, key: string, text: string)
    requires forall j | 0 <= j < |typs| :: typs[j] in names
    ensures forall j | 0 <= j < |Detect(names, typs, key, text).tokens| :: Detect(names, typs, key, text).tokens[j] in names
    ensures Detect(names, typs, key, text).newKey == key + Suffix(names, Detect(names, typs, key, text).tokens)
    decreases |typs|
  {
    DetectNames(names, typs, key, text);
    if typs != [] {
      var init := typs[..|typs| - 1];
      var typ := typs[|typs| - 1];
      DetectKey(names, init, key, text);
      var m := Detect(names, init, key, text);
      var r := Detect(names, typs, key, text);
      if Contains(text, typ) {
        var unit := "(" + names[typ] + ")";
        assert r == Mapping(m.newKey + "(" + names[typ] + ")", m.tokens + [typ]);
        assert r.tokens[..|m.tokens|] == m.tokens;
        assert Suffix(names, r.tokens) == Suffix(names, m.tokens) + unit;
        calc {
          r.newKey;
          (key + Suffix(names, m.tokens)) + unit;
          key + (Suffix(names, m.tokens) + unit);
        }
      } else {
        assert r == m;
      }
    }
  }

  /** `for typ in types: val = val.replace(typ, '')` */
  function StripTokens(text: string, tokens: seq<string>): string
    decreases |tokens|
  {
    if tokens == [] then text
    else RemoveAll(StripTokens(text, tokens[..|tokens| - 1]), tokens[|tokens| - 1])
  }

  /** Cutting tokens never lengthens a value, and a value holding none of them is unchanged. */
  lemma {:induction false} StripTokensShape(text: string, tokens: seq<string>)
    ensures |StripTokens(text, tokens)| <= |text|
    ensures (forall j | 0 <= j < |tokens| :: !Contains(text, tokens[j])) ==> StripTokens(text, tokens) == text
    decreases |tokens|
  {
    if tokens != [] {
      StripTokensShape(text, tokens[..|tokens| - 1]);
      if forall j | 0 <= j < |tokens| :: !Contains(text, tokens[j]) {
        RemoveAllAbsent(text, tokens[|tokens| - 1]);
      }
    }
  }

  /**
   * Cutting tokens changes a value exactly when one of the tokens (an empty
   * one aside) occurs in it, and a changed value is strictly shorter.
   */
  lemma {:induction false} StripTokensChanges(text: string, tokens: seq<string>)
    ensures StripTokens(text, tokens) == text <==>
      forall j | 0 <= j < |tokens| :: tokens[j] == [] || !Contains(text, tokens[j])
    ensures StripTokens(text, tokens) != text ==> |StripTokens(text, tokens)| < |text|
    decreases |tokens|
  {
    if tokens != [] {
      var init := tokens[..|tokens| - 1];
      var t := tokens[|tokens| - 1];
      StripTokensChanges(text, init);
      assert forall j | 0 <= j < |init| :: init[j] == tokens[j];
      if StripTokens(text, init) == text {
        if t != [] && Contains(text, t) {
          RemoveAllShrinks(text, t);
        } else if t != [] {
          RemoveAllAbsent(text, t);
        }
      }
    }
  }

  predicate AllDigits(s: string) {
    forall k | 0 <= k < |s| :: IsDigit(s[k])
  }

  /** `n` shifted `k` decimal places to the right: n / 10^k. */
  function Shifted(n: nat, k: nat): (x: real)
    ensures x >= 0.0
  {
    if k == 0 then n as real else Shifted(n, k - 1) / 10.0
  }

  /** An unsigned decimal: digits with an optional point, at least one digit in all. */
  function ParseUnsigned(t: string): Option<real> {
    if '.' in t then
      var i := Text.IndexOf(t, '.');
      var whole, frac := t[..i], t[i + 1..];
      if AllDigits(whole) && AllDigits(frac) && (whole != [] || frac != []) then
        Some(DigitsValue(whole) as real + Shifted(DigitsValue(frac), |frac|))
      else None
    else if t != [] && AllDigits(t) then Some(DigitsValue(t) as real)
    else None
  }

  /**
   * `float(s)` on plain decimal notation, surrounding whitespace and an
   * optional sign allowed; None where Python raises ValueError.
   */
  function ParseDecimal(s: string): Option<real> {
    var t := Strip(s);
    if t != [] && (t[0] == '+' || t[0] == '-') then
      match ParseUnsigned(t[1..])
      case None => None
      case Some(x) => Some(if t[0] == '-' then -x else x)
    else ParseUnsigned(t)
  }

  /**
   * The value stored for a text, commas dropped before parsing: a whole
   * number becomes an int, another number a float, and a text that does not
   * parse stays as it is (commas included).
   */
  function Coerce(text: string): Value {
    Stored(text, ParseDecimal(RemoveAll(text, ",")))
  }

  /** `if int(new_val) == new_val: new_val = int(new_val)`, or the text kept when `float()` raised. */
  function Stored(text: string, parsed: Option<real>): Value {
    match parsed
    case None => Str(text)
    case Some(x) => if x == x.Floor as real then Int(x.Floor) else Decimal(x)
  }

  /** A string whose first and last characters are not whitespace is its own strip. */
  lemma StripNoSpace(s: string)
    requires s != [] ==> NotSpace(s[0]) && NotSpace(s[|s| - 1])
    ensures Strip(s) == s
  {
    var r := Strip(s);
    var i :| StrippedAt(s, r, i, IsSpace);
    if s != [] {
      assert !IsSpace(s[0]) && !IsSpace(s[|s| - 1]);
      assert i == 0 && i + |r| == |s|;
    }
  }

  /** A text without the character does not contain it. */
  lemma NotContainsChar(s: string, c: char)
    requires c !in s
    ensures !Contains(s, [c])
  {
    forall i | 0 <= i <= |s| - 1 ensures !OccursAt(s, [c], i) {
      assert s[i..i + 1] == [s[i]];
    }
  }

  /** A run of digits reads as its decimal value. */
  lemma ParseDigits(digits: string)
    requires digits != [] && AllDigits(digits)
    ensures ParseUnsigned(digits) == Some(DigitsValue(digits) as real)
  {
    assert '.' !in digits by {
      assert forall k | 0 <= k < |digits| :: IsDigit(digits[k]);
    }
  }

  /** An int written out in decimal parses back to that int. */
  lemma ParseIntToString(n: int)
    ensures ParseDecimal(IntToString(n)) == Some(n as real)
  {
    var m: nat := if n < 0 then -n else n;
    var digits := NatToString(m);
    NatToStringValue(m);
    if n < 0 {
      assert IntToString(n) == "-" + digits;
      ParseNegated(digits, n);
    } else {
      assert IntToString(n) == digits;
      ParseDigitRun(digits);
    }
  }

  /** A minus sign before a run of digits reads as the negated value. */
  lemma ParseNegated(ds: string, n: int)
    requires ds != [] && AllDigits(ds) && DigitsValue(ds) == -n
    ensures ParseDecimal("-" + ds) == Some(n as real)
  {
    var s := "-" + ds;
    assert s[1..] == ds;
    assert s[|s| - 1] == ds[|ds| - 1];
    StripNoSpace(s);
    ParseDigits(ds);
    assert -(DigitsValue(ds) as real) == n as real;
  }

  /** An int written out in decimal has no comma to drop. */
  lemma NoCommaInIntToString(n: int)
    ensures RemoveAll(IntToString(n), ",") == IntToString(n)
  {
    var m: nat := if n < 0 then -n else n;
    var digits := NatToString(m);
    assert ',' !in digits by {
      assert forall k | 0 <= k < |digits| :: IsDigit(digits[k]);
    }
    NotContainsChar(IntToString(n), ',');
    RemoveAllAbsent(IntToString(n), ",");
  }

  /** Every int written out in decimal is stored back as that int. */
  lemma CoerceIntToString(n: int)
    ensures Coerce(IntToString(n)) == Int(n)
  {
    NoCommaInIntToString(n);
    ParseIntToString(n);
    assert (n as real).Floor == n;
  }

  /* ------------------------------------------------- reading numbers back */

  /** 10^k */
  function Pow10(k: nat): (p: nat)
    ensures p >= 1
  {
    if k == 0 then 1 else 10 * Pow10(k - 1)
  }

  /** `k` digits denote less than 10^k. */
  lemma {:induction false} DigitsBelow(ds: string)
    requires AllDigits(ds)
    ensures DigitsValue(ds) < Pow10(|ds|)
    decreases |ds|
  {
    if ds != [] {
      var init := ds[..|ds| - 1];
      DigitsBelow(init);
      assert DigitsValue(ds) == DigitsValue(init) * 10 + DigitValue(ds[|ds| - 1]);
    }
  }

  /** Digits that are not all zeros denote a positive number. */
  lemma {:induction false} DigitsPositive(ds: string, k: nat)
    requires AllDigits(ds) && k < |ds| && ds[k] != '0'
    ensures DigitsValue(ds) > 0
    decreases |ds|
  {
    var init := ds[..|ds| - 1];
    if k < |ds| - 1 {
      assert init[k] == ds[k];
      DigitsPositive(init, k);
    }
  }

  /** Digits written one after the other: the first run is worth 10^|b| times its value. */
  lemma {:induction false} DigitsAppend(a: string, b: string)
    requires AllDigits(a) && AllDigits(b)
    ensures AllDigits(a + b)
    ensures DigitsValue(a + b) == DigitsValue(a) * Pow10(|b|) + DigitsValue(b)
    decreases |b|
  {
    forall k | 0 <= k < |a + b|
      ensures IsDigit((a + b)[k])
    {
      if k >= |a| {
        assert (a + b)[k] == b[k - |a|];
      }
    }
    if b != [] {
      var ab := a + b;
      var init := b[..|b| - 1];
      assert ab[..|ab| - 1] == a + init;
      DigitsAppend(a, init);
      var d := DigitValue(b[|b| - 1]);
      assert DigitsValue(ab) == DigitsValue(a + init) * 10 + d;
      assert DigitsValue(b) == DigitsValue(init) * 10 + d;
      Regroup(DigitsValue(a), Pow10(|init|), DigitsValue(init), d);
    } else {
      assert a + b == a;
    }
  }

  lemma Regroup(x: int, p: int, y: int, d: int)
    ensures (x * p + y) * 10 + d == x * (10 * p) + (y * 10 + d)
  {
  }

  /** Shifting `n` by `k` places and multiplying by 10^k gives `n` back. */
  lemma {:induction false} ShiftedTimes(n: nat, k: nat)
    ensures Shifted(n, k) * Pow10(k) as real == n as real
  {
    if k > 0 {
      ShiftedTimes(n, k - 1);
      var x := Shifted(n, k - 1);
      var p := Pow10(k - 1) as real;
      assert Shifted(n, k) == x / 10.0;
      assert Pow10(k) as real == 10.0 * p;
      assert (x / 10.0) * (10.0 * p) == x * p;
    }
  }

  /** The fraction `0.f` of a digit run `f` that is not all zeros lies strictly between 0 and 1. */
  lemma FractionBounds(f: string, k: nat)
    requires AllDigits(f) && k < |f| && f[k] != '0'
    ensures 0.0 < Shifted(DigitsValue(f), |f|) < 1.0
  {
    DigitsBelow(f);
    DigitsPositive(f, k);
    ShiftedBounds(DigitsValue(f), |f|);
  }

  /** A positive number below 10^k, shifted `k` places, lies strictly between 0 and 1. */
  lemma ShiftedBounds(n: nat, k: nat)
    requires 0 < n < Pow10(k)
    ensures 0.0 < Shifted(n, k) < 1.0
  {
    ShiftedTimes(n, k);
    RealBelow(Shifted(n, k), Pow10(k), n);
  }

  lemma RealBelow(x: real, p: nat, n: nat)
    requires 0 < n < p && x * p as real == n as real
    ensures 0.0 < x < 1.0
  {
  }

  /** `w.f` with digit runs `w` and `f`, at least one of them non-empty, reads as its decimal value. */
  lemma ParseFraction(w: string, f: string)
    requires AllDigits(w) && AllDigits(f) && (w != [] || f != [])
    ensures ParseDecimal(w + "." + f) == Some(DigitsValue(w) as real + Shifted(DigitsValue(f), |f|))
  {
    var t := w + "." + f;
    assert t[|w|] == '.';
    if w != [] { assert t[0] == w[0]; }
    if f != [] { assert t[|t| - 1] == f[|f| - 1]; }
    ParsePlain(t);
    PointAfter(w, f);
    UnsignedAt(t, w, f);
  }

  /** A text that starts with neither whitespace nor a sign and does not end with whitespace is read unsigned. */
  lemma ParsePlain(t: string)
    requires t != [] && NotSpace(t[0]) && NotSpace(t[|t| - 1]) && t[0] != '+' && t[0] != '-'
    ensures ParseDecimal(t) == ParseUnsigned(t)
  {
    StripNoSpace(t);
  }

  /** In `w.f`, `w` free of points, the first point is the one after `w`. */
  lemma PointAfter(w: string, f: string)
    requires AllDigits(w)
    ensures '.' in w + "." + f && Text.IndexOf(w + "." + f, '.') == |w|
    ensures (w + "." + f)[..|w|] == w && (w + "." + f)[|w| + 1..] == f
  {
    var t := w + "." + f;
    assert t[|w|] == '.';
    assert t[..|w|] == w && t[|w| + 1..] == f;
  }

  /** A text whose first point sits between the digit runs `w` and `f` reads as their value. */
  lemma UnsignedAt(t: string, w: string, f: string)
    requires '.' in t && Text.IndexOf(t, '.') == |w| && t[..|w|] == w && t[|w| + 1..] == f
    requires AllDigits(w) && AllDigits(f) && (w != [] || f != [])
    ensures ParseUnsigned(t) == Some(DigitsValue(w) as real + Shifted(DigitsValue(f), |f|))
  {
  }

  /** A text without a comma is not changed by dropping commas. */
  lemma NoCommaKept(s: string)
    requires ',' !in s
    ensures RemoveAll(s, ",") == s
  {
    NotContainsChar(s, ',');
    RemoveAllAbsent(s, ",");
  }

  lemma DigitsNoComma(ds: string)
    requires AllDigits(ds)
    ensures ',' !in ds
  {
    assert forall k | 0 <= k < |ds| :: IsDigit(ds[k]);
  }

  /** A run of digits reads as its value. */
  lemma ParseDigitRun(ds: string)
    requires ds != [] && AllDigits(ds)
    ensures ParseDecimal(ds) == Some(DigitsValue(ds) as real)
  {
    ParseDigits(ds);
    assert IsDigit(ds[0]) && IsDigit(ds[|ds| - 1]);
    ParsePlain(ds);
  }

  /** A run of digits is stored as the int it denotes. */
  lemma CoerceDigits(ds: string)
    requires ds != [] && AllDigits(ds)
    ensures Coerce(ds) == Int(DigitsValue(ds))
  {
    DigitsNoComma(ds);
    NoCommaKept(ds);
    CoerceRun(ds, ds, DigitsValue(ds));
  }

  /** A text that dropping commas leaves alone is stored as whatever it reads as. */
  lemma CoerceFromParse(t: string)
    requires RemoveAll(t, ",") == t
    ensures Coerce(t) == Stored(t, ParseDecimal(t))
  {
  }

  /** `n + y` with `0 < y < 1` lies strictly between two whole numbers. */
  lemma NotWholeSum(n: int, y: real)
    requires 0.0 < y < 1.0
    ensures (n as real + y).Floor == n && n as real + y != (n as real + y).Floor as real
  {
  }

  /** `w.f` holds no comma and reads as its decimal value. */
  lemma FractionFacts(w: string, f: string)
    requires AllDigits(w) && AllDigits(f) && (w != [] || f != [])
    ensures RemoveAll(w + "." + f, ",") == w + "." + f
    ensures ParseDecimal(w + "." + f) == Some(DigitsValue(w) as real + Shifted(DigitsValue(f), |f|))
  {
    DigitsNoComma(w);
    DigitsNoComma(f);
    NoCommaKept(w + "." + f);
    ParseFraction(w, f);
  }

  /** The value of `w.f` with a fraction that is not all zeros is not whole: it stays a float. */
  lemma FractionStored(w: string, f: string, k: nat)
    requires AllDigits(w) && AllDigits(f) && k < |f| && f[k] != '0'
    ensures Stored(w + "." + f, Some(DigitsValue(w) as real + Shifted(DigitsValue(f), |f|)))
         == Decimal(DigitsValue(w) as real + Shifted(DigitsValue(f), |f|))
  {
    FractionBounds(f, k);
    NotWholeSum(DigitsValue(w), Shifted(DigitsValue(f), |f|));
  }

  /** The value of `w.f` with a fraction of zeros only is whole: it becomes an int. */
  lemma WholeStored(w: string, f: string)
    requires AllDigits(w) && forall k | 0 <= k < |f| :: f[k] == '0'
    ensures AllDigits(f)
    ensures Stored(w + "." + f, Some(DigitsValue(w) as real + Shifted(DigitsValue(f), |f|))) == Int(DigitsValue(w))
  {
    ZeroDigits(f);
    ShiftedZero(|f|);
    assert (DigitsValue(w) as real + 0.0).Floor == DigitsValue(w);
  }

  /** A number with a fractional part that is not all zeros is stored as that decimal. */
  lemma CoerceFraction(w: string, f: string, k: nat)
    requires AllDigits(w) && AllDigits(f) && k < |f| && f[k] != '0'
    ensures Coerce(w + "." + f) == Decimal(DigitsValue(w) as real + Shifted(DigitsValue(f), |f|))
  {
    FractionFacts(w, f);
    CoerceFromParse(w + "." + f);
    FractionStored(w, f, k);
  }

  /** A number whose fractional digits are all zeros is stored as an int. */
  lemma CoerceWholeFraction(w: string, f: string)
    requires AllDigits(w) && (w != [] || f != []) && forall k | 0 <= k < |f| :: f[k] == '0'
    ensures Coerce(w + "." + f) == Int(DigitsValue(w))
  {
    WholeStored(w, f);
    FractionFacts(w, f);
    CoerceFromParse(w + "." + f);
  }

  lemma {:induction false} ShiftedZero(k: nat)
    ensures Shifted(0, k) == 0.0
  {
    if k > 0 {
      ShiftedZero(k - 1);
    }
  }

  lemma {:induction false} ZeroDigits(f: string)
    requires forall k | 0 <= k < |f| :: f[k] == '0'
    ensures AllDigits(f) && DigitsValue(f) == 0
    decreases |f|
  {
    if f != [] {
      ZeroDigits(f[..|f| - 1]);
    }
  }

  /** A comma between two runs of digits is dropped: `1,234` is stored as 1234. */
  lemma CoerceGrouped(w: string, b: string)
    requires w != [] && AllDigits(w) && AllDigits(b)
    ensures Coerce(w + "," + b) == Coerce(w + b)
    ensures Coerce(w + "," + b) == Int(DigitsValue(w) * Pow10(|b|) + DigitsValue(b))
  {
    GroupedDigits(w, b);
    CoerceRun(w + "," + b, w + b, DigitsValue(w) * Pow10(|b|) + DigitsValue(b));
    CoerceDigits(w + b);
  }

  /** A text that dropping commas turns into a digit run is stored as the int the run denotes. */
  lemma CoerceRun(text: string, ds: string, n: int)
    requires RemoveAll(text, ",") == ds && ds != [] && AllDigits(ds) && DigitsValue(ds) == n
    ensures Coerce(text) == Int(n)
  {
    ParseDigitRun(ds);
    StoredInt(text, n);
  }

  /** The same for a printed int, negative ones included: `-1,234` is stored as -1234. */
  lemma CoerceGroupedInt(a: int, b: string)
    requires AllDigits(b)
    ensures Coerce(IntToString(a) + "," + b) == Coerce(IntToString(a) + b)
  {
    var m: nat := if a < 0 then -a else a;
    var w := NatToString(m);
    if a >= 0 {
      assert IntToString(a) == w;
      CoerceGrouped(w, b);
    } else {
      assert IntToString(a) == "-" + w;
      GroupedDigits(w, b);
      SignedGrouped(w, b);
      SignedNoComma(w, b);
      var n := -(DigitsValue(w + b) as int);
      CoerceNegativeRun("-" + w + "," + b, w + b, n);
      CoerceNegativeRun("-" + w + b, w + b, n);
    }
  }

  /** A minus sign before `w,b` is kept when the comma is dropped. */
  lemma SignedGrouped(w: string, b: string)
    requires RemoveAll(w + "," + b, ",") == w + b
    ensures RemoveAll("-" + w + "," + b, ",") == "-" + (w + b)
  {
    assert "-" + w + "," + b == "-" + (w + "," + b);
    RemoveAllCons('-', w + "," + b, ",");
  }

  /** A minus sign before a run of digits `wb` has no comma to drop. */
  lemma SignedNoComma(w: string, b: string)
    requires AllDigits(w + b)
    ensures RemoveAll("-" + w + b, ",") == "-" + (w + b)
  {
    DigitsNoComma(w + b);
    assert "-" + w + b == "-" + (w + b);
    RemoveAllCons('-', w + b, ",");
    NoCommaKept(w + b);
  }

  /** A text that dropping commas turns into a minus sign and a digit run is stored as that negative int. */
  lemma CoerceNegativeRun(text: string, ds: string, n: int)
    requires RemoveAll(text, ",") == "-" + ds && ds != [] && AllDigits(ds) && DigitsValue(ds) == -n
    ensures Coerce(text) == Int(n)
  {
    ParseNegated(ds, n);
    StoredInt(text, n);
  }

  /** Dropping the comma from `w,b` leaves the digit run `wb`. */
  lemma GroupedDigits(w: string, b: string)
    requires w != [] && AllDigits(w) && AllDigits(b)
    ensures RemoveAll(w + "," + b, ",") == w + b
    ensures w + b != [] && AllDigits(w + b)
    ensures DigitsValue(w + b) == DigitsValue(w) * Pow10(|b|) + DigitsValue(b)
  {
    DigitsNoComma(w);
    DigitsNoComma(b);
    RemoveAllSkip(w, ",", b);
    NoCommaKept(b);
    DigitsAppend(w, b);
  }

  /** A whole number read from a text is stored as an int. */
  lemma StoredInt(text: string, n: int)
    ensures Stored(text, Some(n as real)) == Int(n)
  {
    assert (n as real).Floor == n;
  }

  /**
   * A character that Python's `float()` never accepts: an ASCII character
   * (beyond ASCII, `float()` also reads Unicode decimal digits) that
   * is not a digit, sign, point, underscore, comma or whitespace, and not a
   * letter of `e`, `inf`, `infinity` or `nan` in either case.
   */
  predicate ForeignToFloat(c: char) {
    c <= '\U{7f}' && !IsDigit(c) && c !in "+-._,eEiInNfFtTyYaA" && NotSpace(c)
  }

  /** Dropping a one-character text keeps every other character. */
  lemma {:induction false} RemoveCharKeeps(s: string, c: char, k: nat)
    requires k < |s| && s[k] != c
    ensures s[k] in RemoveAll(s, [c])
    decreases |s|
  {
    if k > 0 {
      RemoveCharKeeps(s[1..], c, k - 1);
      if s[..1] == [c] {
        assert RemoveAll(s, [c]) == RemoveAll(s[1..], [c]);
      } else {
        assert RemoveAll(s, [c]) == [s[0]] + RemoveAll(s[1..], [c]);
      }
    } else {
      assert s[..1] != [c];
      assert RemoveAll(s, [c]) == [s[0]] + RemoveAll(s[1..], [c]);
    }
  }

  /** What `float()` reads as an unsigned number holds only digits and points. */
  lemma ParseUnsignedChars(t: string, k: nat)
    requires k < |t| && ParseUnsigned(t).Some?
    ensures IsDigit(t[k]) || t[k] == '.'
  {
    if '.' in t {
      var i := Text.IndexOf(t, '.');
      if k < i {
        assert t[k] == t[..i][k];
      } else if k > i {
        assert t[k] == t[i + 1..][k - i - 1];
      }
    }
  }

  /** A text holding a character `float()` never accepts is stored as the text itself. */
  lemma CoerceForeign(text: string, k: nat)
    requires k < |text| && ForeignToFloat(text[k])
    ensures Coerce(text) == Str(text)
  {
    var u := RemoveAll(text, ",");
    RemoveCharKeeps(text, ',', k);
    ForeignUnparsed(u, text[k]);
  }

  /** `float()` rejects a text holding such a character. */
  lemma ForeignUnparsed(u: string, c: char)
    requires ForeignToFloat(c) && c in u
    ensures ParseDecimal(u) == None
  {
    var j :| 0 <= j < |u| && u[j] == c;
    StripKeeps(u, j);
    var t := Strip(u);
    var m :| 0 <= m < |t| && t[m] == c;
    ForeignStripped(t, m);
  }

  /** A stripped text holding such a character fails both the signed and the unsigned reading. */
  lemma ForeignStripped(t: string, m: nat)
    requires m < |t| && ForeignToFloat(t[m])
    ensures t != [] && (t[0] == '+' || t[0] == '-') ==> ParseUnsigned(t[1..]) == None
    ensures ParseUnsigned(t) == None
  {
    ForeignNotSign(t[m]);
    ForeignUnsigned(t, m);
    if t[0] == '+' || t[0] == '-' {
      assert m != 0;
      assert t[1..][m - 1] == t[m];
      ForeignUnsigned(t[1..], m - 1);
    }
  }

  /** Such a character is not a sign. */
  lemma ForeignNotSign(c: char)
    requires ForeignToFloat(c)
    ensures c != '+' && c != '-'
  {
    assert "+-._,eEiInNfFtTyYaA"[0] == '+' && "+-._,eEiInNfFtTyYaA"[1] == '-';
  }

  /** An unsigned number holding such a character does not parse. */
  lemma ForeignUnsigned(t: string, m: nat)
    requires m < |t| && ForeignToFloat(t[m])
    ensures ParseUnsigned(t) == None
  {
    if ParseUnsigned(t).Some? {
      ParseUnsignedChars(t, m);
    }
  }

  /** `strip()` keeps every character that is not whitespace. */
  lemma StripKeeps(u: string, j: nat)
    requires j < |u| && NotSpace(u[j])
    ensures u[j] in Strip(u)
  {
    var t := Strip(u);
    var i :| StrippedAt(u, t, i, IsSpace);
    assert i <= j < i + |t|;
    assert t[j - i] == u[j];
  }

  /** A value that ends in its column's one unit token is stored as the number before it. */
  lemma UnitSuffixCut(key: string, x: string, token: string)
    requires token != [] && forall k | 0 <= k < |x| :: x[k] != token[0]
    ensures FieldValue(Mapping(key, [token]), x + token) == Coerce(x)
  {
    var tokens := [token];
    assert tokens[..0] == [];
    assert StripTokens(x + token, tokens) == RemoveAll(x + token, token);
    RemoveAllSkip(x, token, []);
    assert x + token + [] == x + token;
    assert RemoveAll([], token) == [];
    assert x + [] == x;
  }

  /** `1.2kg` in a column whose unit token is `kg` is stored as 1.2. */
  lemma KilogramsExample(key: string)
    ensures FieldValue(Mapping(key, ["kg"]), "1.2kg") == Decimal(1.2)
  {
    KilogramsCut(key);
    CoerceOnePointTwo();
  }

  lemma KilogramsCut(key: string)
    ensures FieldValue(Mapping(key, ["kg"]), "1.2kg") == Coerce("1.2")
  {
    assert "1.2kg" == "1.2" + "kg";
    UnitSuffixCut(key, "1.2", "kg");
  }

  lemma CoerceOnePointTwo()
    ensures Coerce("1.2") == Decimal(1.2)
  {
    var w, f := "1", "2";
    assert "1.2" == w + "." + f;
    assert DigitsValue(w) == 1 && DigitsValue(f) == 2;
    CoerceFraction(w, f, 0);
    assert Shifted(2, 1) == 0.2;
  }

  /** The value stored for a field's text under its column's mapping: tokens cut out, then coerced. */
  function FieldValue(m: Mapping, text: string): Value {
    Coerce(StripTokens(text, m.tokens))
  }

  /** The column's mapping: the one fixed earlier, or the one detected from this value. */
  function MappingFor(mappings: map<string, Mapping>, units: UnitTable, key: string, text: string): Mapping
    requires units.Valid()
  {
    if key in mappings then mappings[key] else Detect(units.vals, units.keys, key, text)
  }

  /**
   * `str(val).strip()` for one field's value. `str()` of a float or a dict is
   * not part of this model: such a value gives the empty text here.
   */
  function FieldText(v: Value): string {
    match ToText(v)
    case Some(t) => Strip(t)
    case None => []
  }

  /** `str(val).strip()` for every field of a row. */
  function Texts(fields: seq<(string, Value)>): (r: seq<(string, string)>)
    ensures |r| == |fields|
    ensures forall j | 0 <= j < |r| :: r[j] == (fields[j].0, FieldText(fields[j].1))
  {
    seq(|fields|, j requires 0 <= j < |fields| => (fields[j].0, FieldText(fields[j].1)))
  }

  /** The mappings after `process_item` has gone over the (key, text) pairs of a row. */
  function MappingsAfter(mappings: map<string, Mapping>, units: UnitTable, fields: seq<(string, string)>): map<string, Mapping>
    requires units.Valid()
    decreases |fields|
  {
    if fields == [] then mappings
    else
      var prev := MappingsAfter(mappings, units, fields[..|fields| - 1]);
      var last := fields[|fields| - 1];
      prev[last.0 := MappingFor(prev, units, last.0, last.1)]
  }

  /**
   * The new row built from the (key, text) pairs of a row, each value
   * computed by `conv` under the column's mapping at that point. The
   * lemmas below hold whatever `conv` is; `process_item` uses `FieldValue`.
   */
  function RowBy(conv: (Mapping, string) -> Value, mappings: map<string, Mapping>, units: UnitTable, fields: seq<(string, string)>): (r: Record)
    requires units.Valid()
    ensures r.Valid()
    decreases |fields|
  {
    if fields == [] then Empty()
    else
      var last := fields[|fields| - 1];
      var m := MappingFor(MappingsAfter(mappings, units, fields[..|fields| - 1]), units, last.0, last.1);
      RowBy(conv, mappings, units, fields[..|fields| - 1]).Put(m.newKey, conv(m, last.1))
  }

  /** The new row `process_item` builds from the (key, text) pairs of a row. */
  function ConvertRow(mappings: map<string, Mapping>, units: UnitTable, fields: seq<(string, string)>): (r: Record)
    requires units.Valid()
    ensures r.Valid()
  {
    RowBy(FieldValue, mappings, units, fields)
  }

  lemma ConvertRowSnoc(mappings: map<string, Mapping>, units: UnitTable, fields: seq<(string, string)>, i: nat)
    requires units.Valid()
    requires i < |fields|
    ensures MappingsAfter(mappings, units, fields[..i + 1]) ==
      MappingsAfter(mappings, units, fields[..i])[fields[i].0 := MappingFor(MappingsAfter(mappings, units, fields[..i]), units, fields[i].0, fields[i].1)]
    ensures ConvertRow(mappings, units, fields[..i + 1]) ==
      var m := MappingFor(MappingsAfter(mappings, units, fields[..i]), units, fields[i].0, fields[i].1);
      ConvertRow(mappings, units, fields[..i]).Put(m.newKey, FieldValue(m, fields[i].1))
  {
    assert fields[..i + 1][..i] == fields[..i];
  }

  /** One field of `process_item` moves the loop's mappings and new row on by one pair. */
  lemma ConvertStep(m0: map<string, Mapping>, units: UnitTable, fields: seq<(string, string)>, i: nat,
                    before: map<string, Mapping>, row: Record, after: map<string, Mapping>, newKey: string, v: Value)
    requires units.Valid() && i < |fields|
    requires before == MappingsAfter(m0, units, fields[..i]) && row == ConvertRow(m0, units, fields[..i])
    requires var m := MappingFor(before, units, fields[i].0, fields[i].1);
      after == before[fields[i].0 := m] && newKey == m.newKey && v == FieldValue(m, fields[i].1)
    ensures after == MappingsAfter(m0, units, fields[..i + 1])
    ensures row.Put(newKey, v) == ConvertRow(m0, units, fields[..i + 1])
  {
    ConvertRowSnoc(m0, units, fields, i);
  }

  /**
   * The mappings are sticky: a column mapped before keeps its mapping,
   * afterwards every column of the row is mapped, and no other column is.
   */
  lemma {:induction false} MappingsSticky(mappings: map<string, Mapping>, units: UnitTable, fields: seq<(string, string)>)
    requires units.Valid()
    ensures forall k | k in mappings :: k in MappingsAfter(mappings, units, fields) && MappingsAfter(mappings, units, fields)[k] == mappings[k]
    ensures forall j | 0 <= j < |fields| :: fields[j].0 in MappingsAfter(mappings, units, fields)
    ensures forall k | k in MappingsAfter(mappings, units, fields) :: k in mappings || exists j | 0 <= j < |fields| :: fields[j].0 == k
    decreases |fields|
  {
    if fields != [] {
      var init := fields[..|fields| - 1];
      MappingsSticky(mappings, units, init);
      var prev := MappingsAfter(mappings, units, init);
      var last := fields[|fields| - 1];
      var next := MappingsAfter(mappings, units, fields);
      assert next == prev[last.0 := MappingFor(prev, units, last.0, last.1)];
      assert last.0 in prev ==> next == prev;
      assert forall j | 0 <= j < |init| :: init[j] == fields[j];
      forall k | k in next ensures k in mappings || exists j | 0 <= j < |fields| :: fields[j].0 == k {
        if k !in mappings && k != last.0 {
          var j :| 0 <= j < |init| && init[j].0 == k;
          assert fields[j].0 == k;
        }
      }
    }
  }

  /** The new row computed by `conv` with fixed mappings for every column of the row. */
  function RowWith(conv: (Mapping, string) -> Value, mappings: map<string, Mapping>, fields: seq<(string, string)>): (r: Record)
    requires forall j | 0 <= j < |fields| :: fields[j].0 in mappings
    ensures r.Valid()
    decreases |fields|
  {
    if fields == [] then Empty()
    else
      var last := fields[|fields| - 1];
      var m := mappings[last.0];
      RowWith(conv, mappings, fields[..|fields| - 1]).Put(m.newKey, conv(m, last.1))
  }

  /** Mappings that agree on the row's columns give the same row. */
  lemma {:induction false} RowWithAgree(conv: (Mapping, string) -> Value, a: map<string, Mapping>, b: map<string, Mapping>, fields: seq<(string, string)>)
    requires forall j | 0 <= j < |fields| :: fields[j].0 in a && fields[j].0 in b && a[fields[j].0] == b[fields[j].0]
    ensures RowWith(conv, a, fields) == RowWith(conv, b, fields)
    decreases |fields|
  {
    if fields != [] {
      RowWithAgree(conv, a, b, fields[..|fields| - 1]);
    }
  }

  /** Each field is converted with the mapping its column has once the whole row is done. */
  lemma {:induction false} RowByWith(conv: (Mapping, string) -> Value, mappings: map<string, Mapping>, units: UnitTable, fields: seq<(string, string)>)
    requires units.Valid()
    ensures forall j | 0 <= j < |fields| :: fields[j].0 in MappingsAfter(mappings, units, fields)
    ensures RowBy(conv, mappings, units, fields) == RowWith(conv, MappingsAfter(mappings, units, fields), fields)
    decreases |fields|
  {
    MappingsSticky(mappings, units, fields);
    if fields != [] {
      var init := fields[..|fields| - 1];
      var last := fields[|fields| - 1];
      RowByWith(conv, mappings, units, init);
      MappingsSticky(mappings, units, init);
      var prev := MappingsAfter(mappings, units, init);
      var next := MappingsAfter(mappings, units, fields);
      assert next == prev[last.0 := MappingFor(prev, units, last.0, last.1)];
      forall j | 0 <= j < |init| ensures init[j].0 in next && next[init[j].0] == prev[init[j].0] {
        assert init[j].0 in prev;
      }
      RowWithAgree(conv, prev, next, init);
    }
  }

  /** A row whose columns are all mapped already changes no mapping. */
  lemma {:induction false} MappingsKnown(mappings: map<string, Mapping>, units: UnitTable, fields: seq<(string, string)>)
    requires units.Valid()
    requires forall j | 0 <= j < |fields| :: fields[j].0 in mappings
    ensures MappingsAfter(mappings, units, fields) == mappings
    decreases |fields|
  {
    if fields != [] {
      MappingsKnown(mappings, units, fields[..|fields| - 1]);
    }
  }

  /**
   * Every field of the row is converted with the mapping its column has
   * once the row is done: the first value of a new column fixes it for all.
   */
  lemma ConvertRowWith(mappings: map<string, Mapping>, units: UnitTable, fields: seq<(string, string)>)
    requires units.Valid()
    ensures forall j | 0 <= j < |fields| :: fields[j].0 in MappingsAfter(mappings, units, fields)
    ensures ConvertRow(mappings, units, fields) == RowWith(FieldValue, MappingsAfter(mappings, units, fields), fields)
  {
    RowByWith(FieldValue, mappings, units, fields);
  }

  /** Converting the same row a second time gives the same row and leaves the mappings as they are. */
  lemma ConvertRowTwice(mappings: map<string, Mapping>, units: UnitTable, fields: seq<(string, string)>)
    requires units.Valid()
    ensures MappingsAfter(MappingsAfter(mappings, units, fields), units, fields) == MappingsAfter(mappings, units, fields)
    ensures ConvertRow(MappingsAfter(mappings, units, fields), units, fields) == ConvertRow(mappings, units, fields)
  {
    var after := MappingsAfter(mappings, units, fields);
    RowByWith(FieldValue, mappings, units, fields);
    MappingsKnown(after, units, fields);
    RowByWith(FieldValue, after, units, fields);
  }

  class DataUnitConversionPipeline {
    /** `unit_types`: unit token to unit name, in file order. */
    var unitTypes: UnitTable
    /** `header_mappings`: the conversion fixed for each column seen so far. */
    var headerMappings: map<string, Mapping>

    ghost predicate Valid()
      reads this
    {
      unitTypes.Valid()
    }

    constructor ()
      ensures Valid() && unitTypes.vals == map[] && headerMappings == map[]
    {
      unitTypes := Empty();
      headerMappings := map[];
    }

    /** `parse_unit_types`, given the unit file's lines, or None when there is no file. */
    method ParseUnitTypes(file: Option<seq<string>>) returns (ok: bool)
      requires Valid()
      modifies this
      ensures Valid() && headerMappings == old(headerMappings)
      ensures file.None? ==> unitTypes == old(unitTypes) && ok
      ensures file.Some? ==> (unitTypes, ok) == UnitLines(old(unitTypes), LineParts(file.value))
    {
      if file.None? {
        return true;
      }
      ghost var rows := LineParts(file.value);
      ghost var u0 := unitTypes;
      var lines := file.value;
      var i := 0;
      while i < |lines|
        invariant 0 <= i <= |lines|
        invariant Valid() && headerMappings == old(headerMappings)
        invariant (unitTypes, true) == UnitLines(u0, rows[..i])
      {
        UnitLinesSnoc(u0, rows, i);
        var added := AddUnitLine(lines[i]);
        if !added {
          UnitLinesStuck(u0, rows, i + 1);
          return false;
        }
        i := i + 1;
      }
      assert rows[..i] == rows;
      ok := true;
    }

    /** One line of the unit file: `typ, typ_name = line.strip().split('-')`, then `unit_types[typ] = typ_name`. */
    method AddUnitLine(line: string) returns (ok: bool)
      requires Valid()
      modifies this
      ensures Valid() && headerMappings == old(headerMappings)
      ensures var parts := Parts(line);
        && ok == (|parts| == 2)
        && unitTypes == if ok then old(unitTypes).Put(parts[0], parts[1]) else old(unitTypes)
    {
      var parts := Parts(line);
      if |parts| != 2 {
        return false;
      }
      unitTypes := unitTypes.Put(parts[0], parts[1]);
      ok := true;
    }

    /** `open_spider`: the unit table, then the mappings restored from the earlier run, if any. */
    method OpenSpider(file: Option<seq<string>>, restored: Option<map<string, Mapping>>) returns (ok: bool)
      requires Valid()
      modifies this
      ensures Valid()
      ensures file.None? ==> unitTypes == old(unitTypes) && ok
      ensures file.Some? ==> (unitTypes, ok) == UnitLines(old(unitTypes), LineParts(file.value))
      ensures headerMappings == if ok && restored.Some? then restored.value else old(headerMappings)
    {
      ok := ParseUnitTypes(file);
      if ok && restored.Some? {
        headerMappings := restored.value;
      }
    }

    /** The inner loop over the unit table for a column seen for the first time. */
    method DetectUnits(key: string, text: string) returns (m: Mapping)
      requires Valid()
      ensures m == Detect(unitTypes.vals, unitTypes.keys, key, text)
    {
      var typs := unitTypes.keys;
      m := Mapping(key, []);
      var i := 0;
      while i < |typs|
        invariant 0 <= i <= |typs|
        invariant m == Detect(unitTypes.vals, typs[..i], key, text)
      {
        DetectSnoc(unitTypes.vals, typs, key, text, i);
        var typ := typs[i];
        if Contains(text, typ) {
          m := Mapping(m.newKey + "(" + unitTypes.vals[typ] + ")", m.tokens + [typ]);
        }
        i := i + 1;
      }
      assert typs[..i] == typs;
    }

    /** `process_item`: every field converted with its column's mapping, fixing new columns' mappings. */
    method ProcessItem(row: Record) returns (newRow: Record)
      requires Valid() && row.Valid()
      modifies this
      ensures Valid() && unitTypes == old(unitTypes)
      ensures headerMappings == MappingsAfter(old(headerMappings), unitTypes, Texts(Items(row)))
      ensures newRow == ConvertRow(old(headerMappings), unitTypes, Texts(Items(row)))
    {
      ghost var m0 := headerMappings;
      ghost var units := unitTypes;
      var items := Items(row);
      ghost var fields := Texts(items);
      newRow := Empty();
      var i := 0;
      while i < |items|
        invariant 0 <= i <= |items|
        invariant Valid() && unitTypes == units
        invariant headerMappings == MappingsAfter(m0, units, fields[..i])
        invariant newRow == ConvertRow(m0, units, fields[..i])
      {
        newRow := ProcessField(items, i, newRow, m0, fields);
        i := i + 1;
      }
      assert fields[..i] == fields;
    }

    /** One pass of the loop of `process_item`: `str(val).strip()` of field `i`, converted and stored in the new row. */
    method ProcessField(items: seq<(string, Value)>, i: nat, newRow: Record,
                        ghost m0: map<string, Mapping>, ghost fields: seq<(string, string)>)
      returns (r: Record)
      requires Valid() && i < |items|
      requires fields == Texts(items)
      requires headerMappings == MappingsAfter(m0, unitTypes, fields[..i])
      requires newRow == ConvertRow(m0, unitTypes, fields[..i])
      modifies this
      ensures Valid() && unitTypes == old(unitTypes)
      ensures headerMappings == MappingsAfter(m0, unitTypes, fields[..i + 1])
      ensures r == ConvertRow(m0, unitTypes, fields[..i + 1])
    {
      var key := items[i].0;
      var text := FieldText(items[i].1);
      assert fields[i] == (key, text);
      ghost var before := headerMappings;
      var newKey, v := ConvertField(key, text);
      ConvertStep(m0, unitTypes, fields, i, before, newRow, headerMappings, newKey, v);
      r := newRow.Put(newKey, v);
    }

    /** One field of `process_item`: the column's mapping, fixed now if the column is new, applied to its text. */
    method ConvertField(key: string, text: string) returns (newKey: string, v: Value)
      requires Valid()
      modifies this
      ensures Valid() && unitTypes == old(unitTypes)
      ensures var m := MappingFor(old(headerMappings), unitTypes, key, text);
        && headerMappings == old(headerMappings)[key := m]
        && newKey == m.newKey && v == FieldValue(m, text)
    {
      var m;
      if key !in headerMappings {
        m := DetectUnits(key, text);
        headerMappings := headerMappings[key := m];
      } else {
        m := headerMappings[key];
      }
      var newVal := StripUnitTokens(text, m.tokens);
      newKey, v := m.newKey, Coerce(newVal);
    }

    /** The inner loop cutting a column's unit tokens out of a value. */
    method StripUnitTokens(text: string, tokens: seq<string>) returns (r: string)
      ensures r == StripTokens(text, tokens)
    {
      r := text;
      var j := 0;
      while j < |tokens|
        invariant 0 <= j <= |tokens|
        invariant r == StripTokens(text, tokens[..j])
      {
        assert tokens[..j + 1][..j] == tokens[..j];
        r := RemoveAll(r, tokens[j]);
        j := j + 1;
      }
      assert tokens[..j] == tokens;
    }
  }
}
