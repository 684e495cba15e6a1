/** The two texts shown to the user: amounts in bitcoins and addresses (baseconv.c). */
module TextEncoding {
  import opened Arith
  import opened Bytes
  import opened BaseConversion

  const TEXT_AMOUNT_LENGTH: nat := 22
  const TEXT_ADDRESS_LENGTH: nat := 36

  // ----- null-terminated strings in fixed buffers -----

  /** The buffer holds the text, and nothing but nulls after it. */
  ghost predicate Holds(a: seq<char>, s: string) {
    |s| < |a| && a[..|s|] == s && forall k :: |s| <= k < |a| ==> a[k] == '\0'
  }

  /** What a reader of the string sees: everything up to the first null. */
  function TextOf(a: seq<char>): string {
    if a == [] || a[0] == '\0' then [] else [a[0]] + TextOf(a[1..])
  }

  lemma {:induction false} HeldText(a: seq<char>, s: string)
    requires Holds(a, s) && (forall k :: 0 <= k < |s| ==> s[k] != '\0')
    ensures TextOf(a) == s
    decreases |s|
  {
    if s != [] {
      assert a[0] == a[..|s|][0] == s[0];
      assert a[1..][..|s| - 1] == a[..|s|][1..] == s[1..];
      HeldText(a[1..], s[1..]);
    }
  }

  /** Removes up to n leading characters c. */
  function DropLeading(s: string, c: char, n: nat): string {
    if n > 0 && s != [] && s[0] == c then DropLeading(s[1..], c, n - 1) else s
  }

  /** Moves the text down over its first character. */
  method ShiftDown(a: array<char>, ghost s: string)
    requires s != [] && Holds(a[..], s)
    modifies a
    ensures Holds(a[..], s[1..])
  {
    ghost var was := a[..];
    for j := 0 to a.Length - 1
      invariant forall k :: 0 <= k < j ==> a[k] == was[k + 1]
      invariant forall k :: j <= k < a.Length ==> a[k] == was[k]
    {
      a[j] := a[j + 1];
    }
    HeldTail(was, a[..], s);
  }

  lemma HeldTail(was: seq<char>, now: seq<char>, s: string)
    requires |was| == |now| && s != [] && Holds(was, s)
    requires (forall k :: 0 <= k < |was| - 1 ==> now[k] == was[k + 1]) && now[|was| - 1] == was[|was| - 1]
    ensures Holds(now, s[1..])
  {
    var t, n := s[1..], now[..|s| - 1];
    forall k | 0 <= k < |t|
      ensures n[k] == t[k]
    {
      assert was[..|s|][k + 1] == s[k + 1];
    }
  }

  /** Moves the text up by one and puts a character in front of it. */
  method ShiftUp(a: array<char>, c: char, ghost s: string)
    requires a.Length >= 2 && |s| + 1 < a.Length && Holds(a[..], s)
    modifies a
    ensures Holds(a[..], [c] + s)
  {
    ghost var was := a[..];
    var j: int := a.Length - 2;
    while j >= 0
      invariant -1 <= j <= a.Length - 2
      invariant forall k :: j + 1 < k < a.Length ==> a[k] == was[k - 1]
      invariant forall k :: 0 <= k <= j + 1 ==> a[k] == was[k]
    {
      a[j + 1] := a[j];
      j := j - 1;
    }
    a[0] := c;
    HeldCons(was, a[..], c, s);
  }

  lemma HeldCons(was: seq<char>, now: seq<char>, c: char, s: string)
    requires |was| == |now| && |s| + 1 < |was| && Holds(was, s)
    requires now[0] == c && forall k :: 1 <= k < |was| ==> now[k] == was[k - 1]
    ensures Holds(now, [c] + s)
  {
    var t, n := [c] + s, now[..|s| + 1];
    forall k | 0 <= k < |t|
      ensures n[k] == t[k]
    {
      if k > 0 {
        assert was[..|s|][k - 1] == s[k - 1];
      }
    }
  }

  method RemoveLeading(a: array<char>, c: char, times: nat, ghost s: string)
    requires a.Length >= 1 && Holds(a[..], s) && c != '\0'
    modifies a
    ensures Holds(a[..], DropLeading(s, c, times))
  {
    ghost var rest := s;
    for i := 0 to times
      invariant Holds(a[..], rest) && DropLeading(rest, c, times - i) == DropLeading(s, c, times)
    {
      FirstHeld(a[..], rest);
      if a[0] == c {
        ShiftDown(a, rest);
        rest := rest[1..];
      } else {
        break;
      }
    }
  }

  lemma FirstHeld(a: seq<char>, s: string)
    requires Holds(a, s)
    ensures a[0] == if s == [] then '\0' else s[0]
  {
    if s != [] {
      assert a[..|s|][0] == s[0];
    }
  }

  // ----- amounts -----

  function Char10(d: nat): (c: char)
    requires d < 10
    ensures c != '\0' && c != '.' && (c == '0' <==> d == 0) && Digit10(c) == d
  {
    '0' + d as char
  }

  function Digit10(c: char): nat {
    if '0' <= c <= '9' then (c - '0') as nat else 0
  }

  function Chars10(d: seq<nat>): (s: string)
    requires forall i :: 0 <= i < |d| ==> d[i] < 10
    ensures |s| == |d| && forall i :: 0 <= i < |d| ==> s[i] == Char10(d[i])
  {
    seq(|d|, i requires 0 <= i < |d| => Char10(d[i]))
  }

  function Digits10(s: string): (d: seq<nat>)
    ensures |d| == |s| && forall i :: 0 <= i < |s| ==> d[i] == Digit10(s[i])
  {
    seq(|s|, i requires 0 <= i < |s| => Digit10(s[i]))
  }

  /** The number that a string of decimal digits stands for. */
  function Number(s: string): nat {
    Value(Digits10(s), 10)
  }

  /** At least one digit, and no zero in front of another. */
  function StripLeading(s: string): string {
    if |s| > 1 && s[0] == '0' then StripLeading(s[1..]) else s
  }

  function StripTrailing(s: string): string {
    if s != [] && s[|s| - 1] == '0' then StripTrailing(s[..|s| - 1]) else s
  }

  /** The decimals with their point, or nothing if they are all zero. */
  function Decimals(s: string): string {
    var t := StripTrailing(s);
    if t == [] then [] else ['.'] + t
  }

  /** An amount in units of 10^-8, as 12 + 8 digits stripped of needless zeros. */
  function AmountText(x: nat): string {
    var d := LowDigits(x, 10, 20);
    StripLeading(Chars10(d[..12])) + Decimals(Chars10(d[12..]))
  }

  // reading it back

  /** The position of a character in a string, or its length. */
  function IndexOf(s: string, c: char): (i: nat)
    ensures i <= |s|
  {
    if s == [] || s[0] == c then 0 else 1 + IndexOf(s[1..], c)
  }

  /** The amount in units of 10^-8 that a decimal text stands for. */
  function ReadAmount(s: string): nat {
    var i := IndexOf(s, '.');
    if i == |s| then Number(s) * 100000000
    else if |s| - i - 1 <= 8 then Number(s[..i]) * 100000000 + Number(s[i + 1..]) * Power(10, 8 - (|s| - i - 1))
    else 0
  }

  /** No digit could be left out: the whole part is 0 or begins with another digit, the decimals do not end in 0. */
  predicate Canonical(s: string) {
    var i := IndexOf(s, '.');
    && i > 0 && (s[0] == '0' ==> i == 1)
    && (i < |s| ==> i + 1 < |s| && s[|s| - 1] != '0')
  }

  predicate AllDigitChars(s: string) {
    forall i :: 0 <= i < |s| ==> '0' <= s[i] <= '9'
  }

  lemma {:induction false} StripLeadingKeeps(s: string)
    requires s != [] && AllDigitChars(s)
    ensures var t := StripLeading(s);
            t != [] && |t| <= |s| && AllDigitChars(t) && Number(t) == Number(s) && (t[0] == '0' ==> |t| == 1)
  {
    hide Value;
    if |s| > 1 && s[0] == '0' {
      assert Digits10(s)[1..] == Digits10(s[1..]);
      LeadingZero(Digits10(s), 10);
      StripLeadingKeeps(s[1..]);
    }
  }

  lemma {:induction false} StripTrailingKeeps(s: string)
    requires AllDigitChars(s)
    ensures var t := StripTrailing(s);
            && |t| <= |s| && AllDigitChars(t) && Number(s) == Number(t) * Power(10, |s| - |t|)
            && (t != [] ==> t[|t| - 1] != '0')
  {
    hide Value;
    if s != [] && s[|s| - 1] == '0' {
      var r := s[..|s| - 1];
      assert Digits10(s)[..|s| - 1] == Digits10(r);
      TrailingZero(Digits10(s), 10);
      StripTrailingKeeps(r);
      var t := StripTrailing(s);
      Shift10(Number(t), |r| - |t|);
    }
  }

  lemma Shift10(v: nat, k: nat)
    ensures v * Power(10, k) * 10 == v * Power(10, k + 1)
  {
    assert Power(10, k + 1) == 10 * Power(10, k);
    Rearranged(v, Power(10, k));
  }

  lemma Rearranged(v: nat, p: nat)
    ensures v * p * 10 == v * (10 * p)
  {
  }

  lemma {:induction false} FirstPoint(a: string, b: string)
    requires AllDigitChars(a) && (b == [] || b[0] == '.')
    ensures IndexOf(a + b, '.') == |a|
  {
    if a == [] {
      assert a + b == b;
    } else {
      assert (a + b)[1..] == a[1..] + b;
      FirstPoint(a[1..], b);
    }
  }

  lemma Chars10Number(d: seq<nat>)
    requires forall i :: 0 <= i < |d| ==> d[i] < 10
    ensures AllDigitChars(Chars10(d)) && Number(Chars10(d)) == Value(d, 10)
  {
    assert Digits10(Chars10(d)) == d;
  }

  lemma Power10At8()
    ensures Power(10, 8) == 100000000
  {
  }

  /** The text of an amount is canonical and stands for the amount. */
  lemma AmountTextMeaning(x: nat)
    requires x < Power(10, 20)
    ensures Canonical(AmountText(x)) && ReadAmount(AmountText(x)) == x
  {
    hide Value, Power, LowDigits, Chars10, Number, StripLeading, StripTrailing;
    var d := LowDigits(x, 10, 20);
    var w, f := d[..12], d[12..];
    AllDigits(x, 10, 20);
    assert d == w + f;
    ValueOfConcat(w, f, 10);
    Chars10Number(w);
    Chars10Number(f);
    Power10At8();
    var a, t := StripLeading(Chars10(w)), StripTrailing(Chars10(f));
    StripLeadingKeeps(Chars10(w));
    StripTrailingKeeps(Chars10(f));
    var b := Decimals(Chars10(f));
    FirstPoint(a, b);
    ReadParts(a, t, x);
  }

  lemma ReadParts(a: string, t: string, x: nat)
    requires AllDigitChars(a) && a != [] && |t| <= 8 && (a[0] == '0' ==> |a| == 1) && (t != [] ==> t[|t| - 1] != '0')
    requires x == Number(a) * 100000000 + Number(t) * Power(10, 8 - |t|)
    ensures var s := a + if t == [] then [] else ['.'] + t; Canonical(s) && ReadAmount(s) == x
  {
    hide Power, Number;
    var b := if t == [] then [] else ['.'] + t;
    var s := a + b;
    FirstPoint(a, b);
    if t == [] {
      assert s == a;
      EmptyNumber(t);
      Commute(0, Power(10, 8));
    } else {
      assert s[..|a|] == a && s[|a| + 1..] == t;
    }
  }

  lemma EmptyNumber(t: string)
    requires t == []
    ensures Number(t) == 0
  {
  }

  // writing it

  /** Digits with the decimal point in front of the last eight of them. */
  function Layout(d: seq<nat>): (s: string)
    requires forall i :: 0 <= i < |d| ==> d[i] < 10
    ensures |s| == if |d| <= 8 then |d| else |d| + 1
  {
    if |d| <= 8 then Chars10(d) else Chars10(d[..|d| - 8]) + ['.'] + Chars10(d[|d| - 8..])
  }

  lemma LayoutCons(e: nat, d: seq<nat>)
    requires e < 10 && forall i :: 0 <= i < |d| ==> d[i] < 10
    ensures Layout([e] + d) == (if |d| == 8 then [Char10(e), '.'] else [Char10(e)]) + Layout(d)
  {
    if |d| < 8 {
      hide Chars10, Char10;
      CharsCons(e, d);
    } else if |d| == 8 {
      PointIn(e, d);
    } else {
      LayoutLong(e, d);
    }
  }

  lemma PointIn(e: nat, d: seq<nat>)
    requires e < 10 && |d| == 8 && forall i :: 0 <= i < |d| ==> d[i] < 10
    ensures Layout([e] + d) == [Char10(e), '.'] + Layout(d)
  {
    hide Chars10, Char10;
    var f := [e] + d;
    CharsCons(e, []);
    NoChars();
    assert f[1..] == d && f[..1] == [e] + [];
    assert [Char10(e)] + [] + ['.'] + Chars10(d) == [Char10(e), '.'] + Chars10(d);
  }

  lemma LayoutLong(e: nat, d: seq<nat>)
    requires e < 10 && |d| > 8 && forall i :: 0 <= i < |d| ==> d[i] < 10
    ensures Layout([e] + d) == [Char10(e)] + Layout(d)
  {
    hide Chars10, Char10;
    var f, c := [e] + d, [Char10(e)];
    var front, back := d[..|d| - 8], d[|d| - 8..];
    assert f[..|f| - 8] == [e] + front && f[|f| - 8..] == back;
    CharsCons(e, front);
    assert c + Chars10(front) + ['.'] + Chars10(back) == c + (Chars10(front) + ['.'] + Chars10(back));
  }

  lemma CharsCons(e: nat, d: seq<nat>)
    requires e < 10 && forall i :: 0 <= i < |d| ==> d[i] < 10
    ensures Chars10([e] + d) == [Char10(e)] + Chars10(d)
  {
  }

  lemma NoChars()
    ensures Chars10([]) == []
  {
  }

  method CopyBytes(to: array<Byte>, from: array<Byte>, count: nat)
    requires count <= to.Length && count <= from.Length && to != from
    modifies to
    ensures to[..count] == from[..count]
  {
    for i := 0 to count
      invariant to[..i] == from[..i]
    {
      to[i] := from[i];
    }
  }

  /** Puts a character in front of the text that ends at 21. */
  method PutChar(output: array<char>, index: nat, c: char)
    requires output.Length == TEXT_AMOUNT_LENGTH && index <= 20
    modifies output
    ensures output[index..21] == [c] + old(output[index + 1..21])
  {
    ghost var was := output[index + 1..21];
    output[index] := c;
    assert output[index + 1..21] == was;
  }

  method WriteAmountDigits(output: array<char>, input: array<Byte>)
    requires output.Length == TEXT_AMOUNT_LENGTH && input.Length >= 8
    modifies output
    ensures output[..21] == Layout(LowDigits(Val(input[..8]), 10, 20)) && output[21] == '\0'
  {
    hide Val, LowDigits, Layout;
    var op1 := new Byte[9];
    var temp := new Byte[9];
    var r := new Byte[8];
    CopyBytes(r, input, 8);
    ghost var x := Val(input[..8]);
    ShiftLists();
    NoDigits(x);
    var index: int := 20;
    assert output[21..21] == [];
    for i := 0 to 20
      modifies output, op1, temp, r
      invariant Val(r[..8]) == Quotient(x, 10, i)
      invariant index == (if i <= 8 then 20 - i else 19 - i) && output[index + 1..21] == Layout(LowDigits(x, 10, i))
    {
      ghost var d := LowDigits(x, 10, i);
      CopyBytes(op1, r, 8);
      BigDivide(r, op1, temp, 8, BASE10_SHIFT_LIST, 10);
      OneMoreDigit(x, i, op1[0]);
      ghost var tail := output[index + 1..21];
      if i == 8 {
        PutChar(output, index, '.');
        index := index - 1;
      }
      PutChar(output, index, Char10(op1[0]));
      index := index - 1;
      assert [Char10(op1[0])] + (['.'] + tail) == [Char10(op1[0]), '.'] + tail;
    }
    output[21] := '\0';
    assert output[0..21] == output[..21];
  }

  lemma NoDigits(x: nat)
    ensures Quotient(x, 10, 0) == x && Layout(LowDigits(x, 10, 0)) == []
  {
  }

  lemma OneMoreDigit(x: nat, i: nat, e: nat)
    requires e == Quotient(x, 10, i) % 10
    ensures Quotient(x, 10, i + 1) == Quotient(x, 10, i) / 10 && e < 10
    ensures Layout(LowDigits(x, 10, i + 1))
            == (if i == 8 then [Char10(e), '.'] else [Char10(e)]) + Layout(LowDigits(x, 10, i))
  {
    hide Layout;
    LayoutCons(e, LowDigits(x, 10, i));
  }

  /** Removes trailing zeros, and the decimal point after them, back to the twelfth character. */
  function Chop(s: string): string {
    if |s| > 12 && (s[|s| - 1] == '0' || s[|s| - 1] == '.') then Chop(s[..|s| - 1]) else s
  }

  method RemoveTrailing(output: array<char>, ghost s: string)
    requires output.Length == TEXT_AMOUNT_LENGTH && |s| == 21 && output[..21] == s && output[21] == '\0'
    modifies output
    ensures Holds(output[..], Chop(s))
  {
    var i: int := 20;
    while i > 11
      invariant 11 <= i <= 20 && Holds(output[..], s[..i + 1]) && Chop(s[..i + 1]) == Chop(s)
    {
      assert output[i] == output[..][..i + 1][i] == s[i];
      if output[i] == '0' || output[i] == '.' {
        ghost var before := output[..];
        output[i] := '\0';
        CutLast(before, output[..], s[..i + 1]);
        assert s[..i + 1][..i] == s[..i];
      } else {
        break;
      }
      i := i - 1;
    }
  }

  lemma CutLast(was: seq<char>, now: seq<char>, s: string)
    requires s != [] && Holds(was, s) && now == was[|s| - 1 := '\0']
    ensures Holds(now, s[..|s| - 1])
  {
    assert now[..|s| - 1] == was[..|s|][..|s| - 1];
  }

  lemma {:induction false} ChopDecimals(a: string, f: string)
    requires |a| == 12 && AllDigitChars(f)
    ensures Chop(a + ['.'] + f) == a + Decimals(f)
  {
    var s := a + ['.'] + f;
    if f == [] {
      assert s[..12] == a;
      assert Chop(s) == Chop(a) == a;
      assert a + [] == a;
    } else {
      var g := f[..|f| - 1];
      assert s[..|s| - 1] == a + ['.'] + g;
      if f[|f| - 1] == '0' {
        ChopDecimals(a, g);
      }
      assert s[|s| - 1] == f[|f| - 1];
    }
  }

  lemma {:induction false} DropIsStrip(a: string, b: string, n: nat)
    requires |a| == n + 1
    ensures DropLeading(a + b, '0', n) == StripLeading(a) + b
  {
    if n > 0 && a[0] == '0' {
      assert (a + b)[1..] == a[1..] + b;
      DropIsStrip(a[1..], b, n - 1);
    }
  }

  method AmountToText(output: array<char>, input: array<Byte>)
    requires output.Length == TEXT_AMOUNT_LENGTH && input.Length >= 8
    modifies output
    ensures TextOf(output[..]) == AmountText(Val(input[..8]))
  {
    hide Val, Chop, DropLeading, StripLeading, Decimals, LowDigits, Chars10, TextOf;
    ghost var x := Val(input[..8]);
    WriteAmountDigits(output, input);
    ghost var d := LowDigits(x, 10, 20);
    ghost var a, f := Chars10(d[..12]), Chars10(d[12..]);
    RemoveTrailing(output, a + ['.'] + f);
    Chars10Number(d[12..]);
    ChopDecimals(a, f);
    RemoveLeading(output, '0', 11, a + Decimals(f));
    DropIsStrip(a, Decimals(f), 11);
    AmountHasNoNull(x);
    HeldText(output[..], AmountText(x));
  }

  lemma AmountHasNoNull(x: nat)
    ensures forall k :: 0 <= k < |AmountText(x)| ==> AmountText(x)[k] != '\0'
  {
    hide LowDigits, Chars10, StripLeading, StripTrailing, Number;
    var d := LowDigits(x, 10, 20);
    Chars10Number(d[..12]);
    Chars10Number(d[12..]);
    StripLeadingKeeps(Chars10(d[..12]));
    StripTrailingKeeps(Chars10(d[12..]));
  }

  /** Every 64-bit amount has a canonical text that stands for it. */
  lemma AmountRoundTrip(amount: seq<Byte>)
    requires |amount| == 8
    ensures Canonical(AmountText(Val(amount))) && ReadAmount(AmountText(Val(amount))) == Val(amount)
  {
    hide Val, AmountText, Canonical, ReadAmount;
    ValBound(amount);
    assert Pow256(8) == 0x1_0000_0000_0000_0000;
    PowerAdd(10, 8, 12);
    PowerAdd(10, 8, 4);
    Power10At8();
    assert Power(10, 4) == 10000;
    AmountTextMeaning(Val(amount));
  }

  // ----- addresses -----

  /** The 58 characters: digits and letters without 0, O, I and l. */
  function Char58(d: nat): (c: char)
    requires d < 58
    ensures c != '\0' && (c == '1' <==> d == 0) && Digit58(c) == d
  {
    if d < 9 then '1' + d as char
    else if d < 17 then 'A' + (d - 9) as char
    else if d < 22 then 'J' + (d - 17) as char
    else if d < 33 then 'P' + (d - 22) as char
    else if d < 44 then 'a' + (d - 33) as char
    else 'm' + (d - 44) as char
  }

  /** The characters are those of the table, in its order. */
  lemma Alphabet(d: nat)
    requires d < 58
    ensures d < 9 ==> Char58(d) == "123456789"[d]
    ensures 9 <= d < 17 ==> Char58(d) == "ABCDEFGH"[d - 9]
    ensures 17 <= d < 22 ==> Char58(d) == "JKLMN"[d - 17]
    ensures 22 <= d < 33 ==> Char58(d) == "PQRSTUVWXYZ"[d - 22]
    ensures 33 <= d < 44 ==> Char58(d) == "abcdefghijk"[d - 33]
    ensures 44 <= d ==> Char58(d) == "mnopqrstuvwxyz"[d - 44]
  {
    UpperCase(d);
    LowerCase(d);
    hide Char58;
  }

  lemma UpperCase(d: nat)
    requires d < 58
    ensures d < 9 ==> Char58(d) == "123456789"[d]
    ensures 9 <= d < 17 ==> Char58(d) == "ABCDEFGH"[d - 9]
    ensures 17 <= d < 22 ==> Char58(d) == "JKLMN"[d - 17]
    ensures 22 <= d < 33 ==> Char58(d) == "PQRSTUVWXYZ"[d - 22]
  {
  }

  lemma LowerCase(d: nat)
    requires d < 58
    ensures 33 <= d < 44 ==> Char58(d) == "abcdefghijk"[d - 33]
    ensures 44 <= d ==> Char58(d) == "mnopqrstuvwxyz"[d - 44]
  {
  }

  function Digit58(c: char): nat {
    if '1' <= c <= '9' then (c - '1') as nat
    else if 'A' <= c <= 'H' then (c - 'A') as nat + 9
    else if 'J' <= c <= 'N' then (c - 'J') as nat + 17
    else if 'P' <= c <= 'Z' then (c - 'P') as nat + 22
    else if 'a' <= c <= 'k' then (c - 'a') as nat + 33
    else if 'm' <= c <= 'z' then (c - 'm') as nat + 44
    else 0
  }

  function Chars58(d: seq<nat>): (s: string)
    requires forall i :: 0 <= i < |d| ==> d[i] < 58
    ensures |s| == |d| && forall i :: 0 <= i < |d| ==> s[i] == Char58(d[i])
  {
    seq(|d|, i requires 0 <= i < |d| => Char58(d[i]))
  }

  function Digits58(s: string): (d: seq<nat>)
    ensures |d| == |s| && forall i :: 0 <= i < |s| ==> d[i] == Digit58(s[i])
  {
    seq(|s|, i requires 0 <= i < |s| => Digit58(s[i]))
  }

  /** How many zeros a byte string begins with. */
  function LeadingZeros(p: seq<Byte>): (z: nat)
    ensures z <= |p| && (z < |p| ==> p[z] != 0) && forall i :: 0 <= i < z ==> p[i] == 0
  {
    if p == [] || p[0] != 0 then 0 else 1 + LeadingZeros(p[1..])
  }

  function Ones(z: nat): (s: string)
    ensures |s| == z && forall i :: 0 <= i < z ==> s[i] == '1'
  {
    seq(z, _ => '1')
  }

  /** Base58 of a 25-byte payload: a '1' for each leading zero byte, then the number without leading '1's. */
  function AddressText(p: seq<Byte>): string {
    Ones(LeadingZeros(p)) + DropLeading(Chars58(LowDigits(ValBE(p), 58, 35)), '1', 35)
  }

  /** Version, hash and the first four bytes of the double SHA-256 of both. */
  function Payload(version: Byte, hash: seq<Byte>, sha: seq<Byte> -> seq<Byte>): seq<Byte>
    requires |sha([version] + hash)| >= 4
  {
    [version] + hash + sha([version] + hash)[..4]
  }

  /** Byte by byte: one of version, twenty of hash, four of checksum. */
  lemma PayloadBytes(version: Byte, hash: seq<Byte>, sha: seq<Byte> -> seq<Byte>)
    requires |hash| == 20 && |sha([version] + hash)| >= 4
    ensures var p := Payload(version, hash, sha);
            && |p| == 25 && p[0] == version && p[1..21] == hash
            && forall i :: 0 <= i < 4 ==> p[21 + i] == sha([version] + hash)[i]
  {
  }

  // reading it back

  /** The bytes of a number, most significant first, without leading zeros. */
  function MinimalBytes(x: nat): seq<Byte> {
    if x == 0 then [] else MinimalBytes(x / 256) + [x % 256]
  }

  function LeadingOnes(s: string): (z: nat)
    ensures z <= |s|
  {
    if s == [] || s[0] != '1' then 0 else 1 + LeadingOnes(s[1..])
  }

  function Zeros(z: nat): (p: seq<Byte>)
    ensures |p| == z && forall i :: 0 <= i < z ==> p[i] == 0
  {
    seq(z, _ => 0)
  }

  /** Base58 decoding: a zero byte for each leading '1', then the number in as few bytes as possible. */
  function Decode58(s: string): seq<Byte> {
    Zeros(LeadingOnes(s)) + MinimalBytes(Value(Digits58(s), 58))
  }

  lemma {:induction false} DropLeadingOnes(s: string, n: nat)
    requires |s| <= n
    ensures var t := DropLeading(s, '1', n);
            |t| <= |s| && (t != [] ==> t[0] != '1') && Value(Digits58(t), 58) == Value(Digits58(s), 58)
            && forall i :: 0 <= i < |t| ==> t[i] == s[|s| - |t| + i]
  {
    assert Digit58('1') == 0;
    hide Value, Digit58, Digits58;
    if s != [] && s[0] == '1' {
      DropLeadingOnes(s[1..], n - 1);
      assert Digits58(s)[1..] == Digits58(s[1..]);
      LeadingZero(Digits58(s), 58);
    }
  }

  lemma {:induction false} OnesInFront(z: nat, s: string)
    requires s == [] || s[0] != '1'
    ensures LeadingOnes(Ones(z) + s) == z && Value(Digits58(Ones(z) + s), 58) == Value(Digits58(s), 58)
  {
    hide Value;
    var t := Ones(z) + s;
    if z == 0 {
      assert t == s;
    } else {
      assert t[1..] == Ones(z - 1) + s;
      OnesInFront(z - 1, s);
      assert Digits58(t)[1..] == Digits58(t[1..]);
      LeadingZero(Digits58(t), 58);
    }
  }

  /** A byte string without leading zeros is the minimal form of its number. */
  lemma {:induction false} MinimalBytesOf(p: seq<Byte>)
    requires p == [] || p[0] != 0
    ensures MinimalBytes(ValBE(p)) == p
  {
    if p != [] {
      var front, last := p[..|p| - 1], p[|p| - 1];
      ValBESnoc(p);
      MinimalBytesOf(front);
      ValBEPositive(p);
    }
  }

  lemma ValBESnoc(p: seq<Byte>)
    requires p != []
    ensures ValBE(p) == ValBE(p[..|p| - 1]) * 256 + p[|p| - 1]
  {
    assert Reversed(p)[1..] == Reversed(p[..|p| - 1]);
  }

  lemma ValBEPositive(p: seq<Byte>)
    requires p != [] && p[0] != 0
    ensures ValBE(p) > 0
  {
    hide Val;
    ValZero(Reversed(p));
    assert Reversed(p)[|p| - 1] == p[0];
  }

  lemma {:induction false} LeadingZerosValue(p: seq<Byte>)
    ensures ValBE(p[LeadingZeros(p)..]) == ValBE(p)
  {
    if p != [] && p[0] == 0 {
      LeadingZerosValue(p[1..]);
      assert p[1..][LeadingZeros(p[1..])..] == p[LeadingZeros(p)..];
      var a, b := Reversed(p[1..]), Reversed(p);
      assert b == a + [0];
      TopByteZero(b);
      assert b[..|b| - 1] == a;
    } else {
      assert p[0..] == p;
    }
  }

  lemma Chars58Value(d: seq<nat>)
    requires forall i :: 0 <= i < |d| ==> d[i] < 58
    ensures Value(Digits58(Chars58(d)), 58) == Value(d, 58)
  {
    assert Digits58(Chars58(d)) == d;
  }

  /** 58^(k + 10) is at least 256^k, for every k up to 25. */
  lemma {:induction false} RoomInBase58(k: nat)
    requires k <= 25
    ensures Pow256(k) <= Power(58, k + 10)
    decreases 25 - k
  {
    hide Pow256, Power;
    if k < 25 {
      RoomInBase58(k + 1);
      NextPowers(k);
    } else {
      RoomAt25();
    }
  }

  lemma NextPowers(k: nat)
    ensures Pow256(k + 1) == 256 * Pow256(k) && Power(58, k + 1 + 10) == 58 * Power(58, k + 10)
  {
  }

  lemma RoomAt25()
    ensures Pow256(25) <= Power(58, 35)
  {
    assert Pow256(5) == 0x100_0000_0000;
    assert Power(58, 7) == 2207984167552;
    hide Pow256, Power;
    Pow256Add(5, 5);
    Pow256Add(10, 10);
    Pow256Add(20, 5);
    PowerAdd(58, 7, 7);
    PowerAdd(58, 14, 14);
    PowerAdd(58, 28, 7);
    Product(Pow256(5), Power(58, 7), Pow256(5), Power(58, 7));
    Product(Pow256(10), Power(58, 14), Pow256(10), Power(58, 14));
    Product(Pow256(20), Power(58, 28), Pow256(5), Power(58, 7));
  }

  lemma Product(a: nat, b: nat, c: nat, d: nat)
    requires a <= b && c <= d
    ensures a * c <= b * d
  {
    MulMono(a, b, c);
    MulMono(c, d, b);
    Commute(b, c);
    Commute(b, d);
  }

  /** The address text decodes to the payload it was made from. */
  lemma AddressRoundTrip(p: seq<Byte>)
    requires |p| == 25
    ensures Decode58(AddressText(p)) == p
  {
    hide Value, LowDigits, Chars58, Digits58, DropLeading, MinimalBytes, ValBE, LeadingOnes;
    var v, z := ValBE(p), LeadingZeros(p);
    var s := DropLeading(Chars58(LowDigits(v, 58, 35)), '1', 35);
    PayloadFits(p);
    AllDigits(v, 58, 35);
    Chars58Value(LowDigits(v, 58, 35));
    DropLeadingOnes(Chars58(LowDigits(v, 58, 35)), 35);
    OnesInFront(z, s);
    LeadingZerosValue(p);
    MinimalBytesOf(p[z..]);
    assert Zeros(z) + p[z..] == p;
  }

  lemma PayloadFits(p: seq<Byte>)
    requires |p| == 25
    ensures ValBE(p) < Power(58, 35)
  {
    hide Val, Pow256, Power;
    ValBound(Reversed(p));
    RoomInBase58(25);
  }

  /** Digits that do not begin with zero make a number at least as large as their count suggests. */
  lemma LeadingDigit(s: string)
    requires s != [] && Digit58(s[0]) != 0
    ensures Power(58, |s| - 1) <= Value(Digits58(s), 58)
  {
    var d, p := Digits58(s), Power(58, |s| - 1);
    MulMono(1, d[0], p);
  }

  /** An address has at most 35 characters, so that with its terminator it fits the buffer. */
  lemma AddressLength(p: seq<Byte>)
    requires |p| == 25
    ensures |AddressText(p)| <= 35
  {
    hide Value, LowDigits, Chars58, Digits58, DropLeading, ValBE, Power, Pow256;
    var v, z := ValBE(p), LeadingZeros(p);
    var s := DropLeading(Chars58(LowDigits(v, 58, 35)), '1', 35);
    PayloadFits(p);
    AllDigits(v, 58, 35);
    Chars58Value(LowDigits(v, 58, 35));
    DropLeadingOnes(Chars58(LowDigits(v, 58, 35)), 35);
    LeadingZerosValue(p);
    TailBound(p[z..]);
    if z + |s| > 35 {
      NonZeroFirst(s, LowDigits(v, 58, 35));
      LeadingDigit(s);
      RoomInBase58(25 - z);
      PowerMono(58, 35 - z, |s| - 1);
    }
  }

  lemma TailBound(p: seq<Byte>)
    ensures ValBE(p) < Pow256(|p|)
  {
    ValBound(Reversed(p));
  }

  lemma {:induction false} PowerMono(base: nat, a: nat, b: nat)
    requires base >= 1 && a <= b
    ensures Power(base, a) <= Power(base, b)
    decreases b
  {
    if a < b {
      PowerMono(base, a, b - 1);
      MulMono(1, base, Power(base, b - 1));
    }
  }

  lemma NonZeroFirst(s: string, d: seq<nat>)
    requires s != [] && s[0] != '1' && |s| <= |d| && forall i :: 0 <= i < |d| ==> d[i] < 58
    requires forall i :: 0 <= i < |s| ==> s[i] == Chars58(d)[|d| - |s| + i]
    ensures Digit58(s[0]) != 0
  {
    assert s[0] == Chars58(d)[|d| - |s|] == Char58(d[|d| - |s|]);
  }

  // writing an address

  lemma Chars58Cons(e: nat, d: seq<nat>)
    requires e < 58 && forall i :: 0 <= i < |d| ==> d[i] < 58
    ensures Chars58([e] + d) == [Char58(e)] + Chars58(d)
  {
  }

  /** The payload in r, least significant byte first. */
  method FillPayload(r: array<Byte>, input: array<Byte>, version: Byte, sha: seq<Byte> -> seq<Byte>)
    requires r.Length == 25 && input.Length >= 20 && r != input && |sha([version] + input[..20])| >= 4
    modifies r
    ensures r[..] == Reversed(Payload(version, input[..20], sha))
  {
    var fed: seq<Byte> := [version];
    r[24] := version;
    ghost var hash := input[..20];
    for i := 0 to 20
      modifies r
      invariant r[24] == version && fed == [version] + hash[..i]
      invariant forall k :: 24 - i <= k < 24 ==> r[k] == hash[23 - k]
    {
      r[23 - i] := input[i];
      assert hash[..i + 1] == hash[..i] + [input[i]];
      fed := fed + [input[i]];
    }
    assert hash[..20] == hash;
    var digest := sha(fed);
    r[0], r[1], r[2], r[3] := digest[3], digest[2], digest[1], digest[0];
    PayloadReversed(r[..], version, hash, digest, sha);
  }

  lemma PayloadReversed(r: seq<Byte>, version: Byte, hash: seq<Byte>, digest: seq<Byte>, sha: seq<Byte> -> seq<Byte>)
    requires |r| == 25 && |hash| == 20 && digest == sha([version] + hash) && |digest| >= 4
    requires r[24] == version && (forall k :: 4 <= k < 24 ==> r[k] == hash[23 - k])
    requires r[0] == digest[3] && r[1] == digest[2] && r[2] == digest[1] && r[3] == digest[0]
    ensures r == Reversed(Payload(version, hash, sha))
  {
    var p := Payload(version, hash, sha);
    assert |p| == 25;
    forall k | 0 <= k < 25
      ensures r[k] == p[24 - k]
    {
    }
  }

  method CountLeadingZeros(r: array<Byte>, ghost p: seq<Byte>) returns (z: nat)
    requires r.Length == 25 && |p| == 25 && r[..] == Reversed(p)
    ensures z == LeadingZeros(p)
  {
    z := 0;
    assert p[0..] == p;
    var i: int := 24;
    while i >= 0
      invariant -1 <= i <= 24 && z == 24 - i && LeadingZeros(p) == z + LeadingZeros(p[z..])
    {
      assert r[i] == r[..][i] == p[24 - i];
      if r[i] == 0 {
        assert p[z..][1..] == p[z + 1..];
        z := z + 1;
      } else {
        break;
      }
      i := i - 1;
    }
  }

  method WriteAddressDigits(output: array<char>, r: array<Byte>)
    requires output.Length == TEXT_ADDRESS_LENGTH && r.Length == 25
    modifies output, r
    ensures Holds(output[..], Chars58(LowDigits(old(Val(r[..])), 58, 35)))
  {
    hide Val, LowDigits, Chars58, ShiftListOf;
    var op1 := new Byte[26];
    var temp := new Byte[26];
    ghost var x := Val(r[..]);
    assert r[..25] == r[..];
    ShiftLists();
    NoDigits58(x);
    var index: int := 34;
    assert output[35..35] == [];
    for i := 0 to 35
      modifies output, op1, temp, r
      invariant Val(r[..25]) == Quotient(x, 58, i)
      invariant index == 34 - i && output[index + 1..35] == Chars58(LowDigits(x, 58, i))
    {
      CopyBytes(op1, r, 25);
      BigDivide(r, op1, temp, 25, BASE58_SHIFT_LIST, 58);
      OneMoreDigit58(x, i, op1[0]);
      ghost var tail := output[index + 1..35];
      output[index] := Char58(op1[0]);
      assert output[index..35] == [Char58(op1[0])] + output[index + 1..35];
      assert output[index + 1..35] == tail;
      index := index - 1;
    }
    output[35] := '\0';
    assert output[0..35] == output[..][..35];
  }

  lemma NoDigits58(x: nat)
    ensures Quotient(x, 58, 0) == x && Chars58(LowDigits(x, 58, 0)) == []
  {
  }

  lemma OneMoreDigit58(x: nat, i: nat, e: nat)
    requires e == Quotient(x, 58, i) % 58
    ensures Quotient(x, 58, i + 1) == Quotient(x, 58, i) / 58 && e < 58
    ensures Chars58(LowDigits(x, 58, i + 1)) == [Char58(e)] + Chars58(LowDigits(x, 58, i))
  {
    hide Chars58;
    Chars58Cons(e, LowDigits(x, 58, i));
  }

  method HashToAddr(output: array<char>, input: array<Byte>, version: Byte, sha: seq<Byte> -> seq<Byte>)
    requires output.Length == TEXT_ADDRESS_LENGTH && input.Length >= 20 && |sha([version] + input[..20])| >= 4
    modifies output
    ensures TextOf(output[..]) == AddressText(Payload(version, input[..20], sha))
    ensures |TextOf(output[..])| <= 35
  {
    hide Val, ValBE, TextOf, Payload, AddressText;
    var r := new Byte[25];
    ghost var p := Payload(version, input[..20], sha);
    PayloadSize(version, input[..20], sha);
    FillPayload(r, input, version, sha);
    var leadingZeroBytes := CountLeadingZeros(r, p);
    ValueIs(p);
    WriteAddress(output, r, leadingZeroBytes, p);
    AddressLength(p);
    AddressHasNoNull(p);
    HeldText(output[..], AddressText(p));
  }

  lemma PayloadSize(version: Byte, hash: seq<Byte>, sha: seq<Byte> -> seq<Byte>)
    requires |sha([version] + hash)| >= 4 && |hash| == 20
    ensures |Payload(version, hash, sha)| == 25
  {
  }

  lemma ValueIs(p: seq<Byte>)
    ensures Val(Reversed(p)) == ValBE(p)
  {
  }

  /** The digits, without the '1's in front that stand for nothing, with those in front that stand for zero bytes. */
  method WriteAddress(output: array<char>, r: array<Byte>, leadingZeroBytes: nat, ghost p: seq<Byte>)
    requires output.Length == TEXT_ADDRESS_LENGTH && r.Length == 25 && |p| == 25
    requires Val(r[..]) == ValBE(p) && leadingZeroBytes == LeadingZeros(p)
    modifies output, r
    ensures Holds(output[..], AddressText(p))
  {
    hide Val, ValBE, LowDigits, Chars58, DropLeading, Holds, LeadingZeros;
    ghost var v := ValBE(p);
    WriteAddressDigits(output, r);
    RemoveLeading(output, '1', 35, Chars58(LowDigits(v, 58, 35)));
    AddressLength(p);
    InsertOnes(output, leadingZeroBytes, DropLeading(Chars58(LowDigits(v, 58, 35)), '1', 35));
  }

  method InsertOnes(output: array<char>, z: nat, ghost s: string)
    requires Holds(output[..], s) && z + |s| < output.Length && output.Length >= 2
    modifies output
    ensures Holds(output[..], Ones(z) + s)
  {
    hide Holds;
    assert Ones(0) + s == s;
    for i := 0 to z
      invariant Holds(output[..], Ones(i) + s)
    {
      ShiftUp(output, '1', Ones(i) + s);
      assert ['1'] + (Ones(i) + s) == Ones(i + 1) + s;
    }
  }

  lemma AddressHasNoNull(p: seq<Byte>)
    ensures forall k :: 0 <= k < |AddressText(p)| ==> AddressText(p)[k] != '\0'
  {
    hide LowDigits, DropLeading, ValBE;
    var t := Chars58(LowDigits(ValBE(p), 58, 35));
    var s := DropLeading(t, '1', 35);
    DropLeadingOnes(t, 35);
    forall i | 0 <= i < |s|
      ensures s[i] != '\0'
    {
      assert s[i] == t[|t| - |s| + i];
    }
  }
}
