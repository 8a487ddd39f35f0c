/**
  * The deposit metric's text: Python's `f"R$ {total:,.2f}"` (thousands
  * grouped with ",", two decimals after "."), followed by
  * `.replace(",", "X").replace(".", ",").replace("X", ".")`, which turns it
  * into the Brazilian convention. Amounts are integer cents.
  */
module Currency {
  import opened Numerals

  function Abs(c: int): nat {
    if c < 0 then -c else c
  }

  /** A digit string with `sep` between groups of three, counted from the
      right. */
  function Group3(ds: string, sep: char): string
    decreases |ds|
  {
    if |ds| <= 3 then ds else Group3(ds[..|ds| - 3], sep) + [sep] + ds[|ds| - 3..]
  }

  /** Two decimal digits. */
  function TwoDigits(n: nat): string
    requires n < 100
  {
    [DigitChar(n / 10), DigitChar(n % 10)]
  }

  /** An amount of `c` cents with the given thousands and decimal marks. */
  function RenderAmount(c: int, thousands: char, decimal: char): string {
    (if c < 0 then "-" else "") + Group3(Digits(Abs(c) / 100), thousands) + [decimal] + TwoDigits(Abs(c) % 100)
  }

  /** `f"{amount:,.2f}"`. */
  function EnAmount(c: int): string {
    RenderAmount(c, ',', '.')
  }

  /** The Brazilian rendering the panel intends: "." between thousands, ","
      before the cents. */
  function BrAmount(c: int): string {
    RenderAmount(c, '.', ',')
  }

  /** `str.replace(a, b)` for one-character `a` and `b`. */
  function ReplaceChar(s: string, a: char, b: char): string {
    if s == [] then [] else [if s[0] == a then b else s[0]] + ReplaceChar(s[1..], a, b)
  }

  /** The three replacements of app.py, in their order. */
  function SwapSeparators(s: string): string {
    ReplaceChar(ReplaceChar(ReplaceChar(s, ',', 'X'), '.', ','), 'X', '.')
  }

  /** The "Depósito Original" metric for a total of `c` cents. */
  function DepositText(c: int): string {
    SwapSeparators("R$ " + EnAmount(c))
  }

  /** What the three replacements do to one character that is not 'X'. */
  function SwapChar(ch: char): char {
    if ch == ',' then '.' else if ch == '.' then ',' else ch
  }

  lemma {:induction false} ReplaceCharSpec(s: string, a: char, b: char)
    ensures |ReplaceChar(s, a, b)| == |s|
    ensures forall i :: 0 <= i < |s| ==> ReplaceChar(s, a, b)[i] == if s[i] == a then b else s[i]
  {
    if s != [] {
      ReplaceCharSpec(s[1..], a, b);
    }
  }

  /** On text without an 'X', the rewrite keeps the length, turns every ","
      into "." and every "." into ",", and leaves every other character.
      The 'X' is the placeholder of the three replaces, so an 'X' already in
      the input would come out as "." too. */
  lemma SwapSeparatorsSpec(s: string)
    requires 'X' !in s
    ensures |SwapSeparators(s)| == |s|
    ensures forall i :: 0 <= i < |s| ==> SwapSeparators(s)[i] == SwapChar(s[i])
  {
    var s1 := ReplaceChar(s, ',', 'X');
    var s2 := ReplaceChar(s1, '.', ',');
    ReplaceCharSpec(s, ',', 'X');
    ReplaceCharSpec(s1, '.', ',');
    ReplaceCharSpec(s2, 'X', '.');
    forall i | 0 <= i < |s| ensures SwapSeparators(s)[i] == SwapChar(s[i]) {
      assert s[i] in s;
    }
  }

  /** Rewriting twice gives back the original text. */
  lemma SwapSeparatorsInvolution(s: string)
    requires 'X' !in s
    ensures SwapSeparators(SwapSeparators(s)) == s
  {
    SwapSeparatorsSpec(s);
    var t := SwapSeparators(s);
    assert 'X' !in t by {
      forall i | 0 <= i < |t| ensures t[i] != 'X' {
        assert t[i] == SwapChar(s[i]) && s[i] in s;
      }
    }
    SwapSeparatorsSpec(t);
  }

  lemma {:induction false} Group3Spec(ds: string, sep: char)
    requires AllDigits(ds)
    ensures forall i :: 0 <= i < |Group3(ds, sep)| ==> Group3(ds, sep)[i] == sep || IsDigit(Group3(ds, sep)[i])
    decreases |ds|
  {
    if |ds| > 3 {
      Group3Spec(ds[..|ds| - 3], sep);
    }
  }

  /** Rewriting each character of a grouped numeral swaps its thousands
      mark. */
  lemma {:induction false} Group3Swap(ds: string)
    requires AllDigits(ds)
    ensures |Group3(ds, ',')| == |Group3(ds, '.')|
    ensures forall i :: 0 <= i < |Group3(ds, ',')| ==> SwapChar(Group3(ds, ',')[i]) == Group3(ds, '.')[i]
    decreases |ds|
  {
    if |ds| > 3 {
      Group3Swap(ds[..|ds| - 3]);
    }
  }

  /** `t` is `s` with every character rewritten by SwapChar. */
  predicate SwappedFrom(t: string, s: string) {
    |t| == |s| && forall i :: 0 <= i < |s| ==> t[i] == SwapChar(s[i])
  }

  lemma SwappedConcat(t1: string, s1: string, t2: string, s2: string)
    requires SwappedFrom(t1, s1) && SwappedFrom(t2, s2)
    ensures SwappedFrom(t1 + t2, s1 + s2)
  {
    forall i | 0 <= i < |s1 + s2| ensures (t1 + t2)[i] == SwapChar((s1 + s2)[i]) {
      if i >= |s1| {
        assert (t1 + t2)[i] == t2[i - |s1|] && (s1 + s2)[i] == s2[i - |s1|];
      }
    }
  }

  lemma NoSeparatorSwapped(s: string)
    requires forall i :: 0 <= i < |s| ==> s[i] != ',' && s[i] != '.'
    ensures SwappedFrom(s, s)
  {
  }

  /** The Brazilian rendering is the Python one with each mark swapped. */
  lemma AmountSwapped(c: int)
    ensures SwappedFrom(BrAmount(c), EnAmount(c))
  {
    var ds := Digits(Abs(c) / 100);
    var sign := if c < 0 then "-" else "";
    var cents := TwoDigits(Abs(c) % 100);
    Group3Swap(ds);
    NoSeparatorSwapped(sign);
    NoSeparatorSwapped(cents);
    SwappedConcat(sign, sign, Group3(ds, '.'), Group3(ds, ','));
    SwappedConcat(sign + Group3(ds, '.'), sign + Group3(ds, ','), [','], ['.']);
    SwappedConcat(sign + Group3(ds, '.') + [','], sign + Group3(ds, ',') + ['.'], cents, cents);
  }

  /** The Python rendering holds no 'X'. */
  lemma AmountHasNoX(c: int)
    ensures 'X' !in EnAmount(c)
  {
    var ds := Digits(Abs(c) / 100);
    var g := Group3(ds, ',');
    Group3Spec(ds, ',');
    assert 'X' !in g by {
      forall i | 0 <= i < |g| ensures g[i] != 'X' {
      }
    }
  }

  /** The rewrite turns the Python rendering into the Brazilian one. */
  lemma DepositTextIsBrazilian(c: int)
    ensures DepositText(c) == "R$ " + BrAmount(c)
  {
    var en := "R$ " + EnAmount(c);
    AmountHasNoX(c);
    assert 'X' !in en;
    SwapSeparatorsSpec(en);
    AmountSwapped(c);
    NoSeparatorSwapped("R$ ");
    SwappedConcat("R$ ", "R$ ", BrAmount(c), EnAmount(c));
  }

  /** `s` with every `x` removed. */
  function Without(s: string, x: char): string {
    if s == [] then [] else (if s[0] == x then [] else [s[0]]) + Without(s[1..], x)
  }

  lemma {:induction false} WithoutConcat(a: string, b: string, x: char)
    ensures Without(a + b, x) == Without(a, x) + Without(b, x)
  {
    if a != [] {
      assert (a + b)[0] == a[0] && (a + b)[1..] == a[1..] + b;
      WithoutConcat(a[1..], b, x);
    } else {
      assert a + b == b;
    }
  }

  lemma {:induction false} WithoutDigits(ds: string, x: char)
    requires AllDigits(ds) && !IsDigit(x)
    ensures Without(ds, x) == ds
  {
    if ds != [] {
      WithoutDigits(ds[1..], x);
    }
  }

  lemma WithoutMark(sep: char)
    ensures Without([sep], sep) == []
  {
    assert [sep][1..] == [];
  }

  lemma UngroupStep(g: string, lo: string, sep: char)
    requires AllDigits(lo) && !IsDigit(sep)
    ensures Without(g + [sep] + lo, sep) == Without(g, sep) + lo
  {
    calc {
      Without(g + [sep] + lo, sep);
      { WithoutConcat(g + [sep], lo, sep); }
      Without(g + [sep], sep) + Without(lo, sep);
      { WithoutConcat(g, [sep], sep); WithoutMark(sep); WithoutDigits(lo, sep); }
      Without(g, sep) + [] + lo;
      { assert Without(g, sep) + [] == Without(g, sep); }
      Without(g, sep) + lo;
    }
  }

  /** Dropping the thousands marks from a grouped numeral gives back its
      digits. */
  lemma {:induction false} Group3Ungroup(ds: string, sep: char)
    requires AllDigits(ds) && !IsDigit(sep)
    ensures Without(Group3(ds, sep), sep) == ds
    decreases |ds|
  {
    if |ds| <= 3 {
      WithoutDigits(ds, sep);
    } else {
      var hi, lo := ds[..|ds| - 3], ds[|ds| - 3..];
      assert AllDigits(hi) && AllDigits(lo) by {
        assert forall i :: 0 <= i < |hi| ==> hi[i] == ds[i];
        assert forall i :: 0 <= i < |lo| ==> lo[i] == ds[|ds| - 3 + i];
      }
      Group3Ungroup(hi, sep);
      UngroupStep(Group3(hi, sep), lo, sep);
      assert hi + lo == ds;
    }
  }

  /** Without its thousands marks, the rendering is the sign, the numeral
      of the whole units, the decimal mark and two digits of cents. */
  lemma RenderAmountUngrouped(c: int, thousands: char, decimal: char)
    requires !IsDigit(thousands) && thousands != '-' && thousands != decimal
    ensures Without(RenderAmount(c, thousands, decimal), thousands)
      == (if c < 0 then "-" else "") + Digits(Abs(c) / 100) + [decimal] + TwoDigits(Abs(c) % 100)
  {
    var units, cents := Digits(Abs(c) / 100), TwoDigits(Abs(c) % 100);
    var sign := if c < 0 then "-" else "";
    var g := Group3(units, thousands);
    assert RenderAmount(c, thousands, decimal) == sign + g + [decimal] + cents;
    Group3Ungroup(units, thousands);
    WithoutConcat(sign + g + [decimal], cents, thousands);
    WithoutConcat(sign + g, [decimal], thousands);
    WithoutConcat(sign, g, thousands);
    WithoutDigits(cents, thousands);
    assert Without([decimal], thousands) == [decimal];
    assert Without(sign, thousands) == sign;
  }

  /** The rendering denotes the amount: without its thousands marks it is the
      sign, the numeral of the whole units, the decimal mark and two digits,
      and those digits make up the number of cents. */
  lemma RenderAmountDenotes(c: int, thousands: char, decimal: char)
    requires !IsDigit(thousands) && thousands != '-' && thousands != decimal
    ensures var units, cents := Digits(Abs(c) / 100), TwoDigits(Abs(c) % 100);
      && Without(RenderAmount(c, thousands, decimal), thousands)
           == (if c < 0 then "-" else "") + units + [decimal] + cents
      && ValueOf(units) * 100 + ValueOf(cents) == Abs(c)
  {
    RenderAmountUngrouped(c, thousands, decimal);
    DigitsRoundTrip(Abs(c) / 100);
    TwoDigitsValue(Abs(c) % 100);
  }

  lemma TwoDigitsValue(n: nat)
    requires n < 100
    ensures ValueOf(TwoDigits(n)) == n
  {
    var t := TwoDigits(n);
    assert t[..1] == [DigitChar(n / 10)];
    assert [DigitChar(n / 10)][..0] == [];
    assert ValueOf([DigitChar(n / 10)]) == n / 10;
  }

  /** "Processos Filtrados": `f"{n:,}"`, the count grouped with ",". */
  function CountText(n: nat): string {
    Group3(Digits(n), ',')
  }

  /** Without its commas the count text is the numeral of the count. */
  lemma CountTextDenotes(n: nat)
    ensures Without(CountText(n), ',') == Digits(n)
    ensures ValueOf(Without(CountText(n), ',')) == n
  {
    Group3Ungroup(Digits(n), ',');
    DigitsRoundTrip(n);
  }
}
