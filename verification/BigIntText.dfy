/** Printing (`toStringBase`) and parsing (`bigint_from_string`). */
module BigIntText {
  import opened Options
  import opened Digits
  import opened JsNumbers
  import opened Numerals
  import opened DigitBudget
  import opened BigInts
  import opened BigIntDivision

  predicate PrintBase(base: int) {
    base == 2 || base == 8 || base == 10 || base == 16
  }

  /** `hbase`: four digits are produced from each pass over the number. */
  function ChunkBase(base: int): int {
    if base == 16 then 0x10000 else if base == 8 then 4096 else if base == 2 then 16 else 10000
  }

  lemma ChunkIsFourDigits(base: nat)
    requires PrintBase(base)
    ensures Pow(base, 4) == ChunkBase(base)
  {
    SmallPowers();
  }

  // ---- Printing ----

  /** `(num << 16) + ds[k]`, corrected by 2^32 when the signed shift made it negative, is the plain sum. */
  lemma ShiftedSum(num: int, digit: int)
    requires 0 <= num <= 0xffff && 0 <= digit < BASE
    ensures var t := Shl16(num) + digit;
      (if t < 0 then t + 4294967296 else t) == num * 65536 + digit
  {
  }

  /** One digit of the chunk pass. */
  method ChunkStep(ds: array<int>, k: nat, n: nat, hbase: int, num0: int) returns (num: int)
    requires k < n <= ds.Length && 0 < hbase <= 0x10000 && 0 <= num0 < hbase && IsDigits(ds[..])
    modifies ds
    ensures IsDigits(ds[..]) && 0 <= num < hbase
    ensures forall m :: 0 <= m < ds.Length && m != k ==> ds[m] == old(ds[m])
    ensures hbase * Val(ds[k..n]) + num == old(ds[k] + BASE * (hbase * Val(ds[k + 1..n]) + num0))
  {
    hide Val, Shl16;
    ghost var tail := ds[k + 1..n];
    ShiftedSum(num0, ds[k]);
    QuotientOfChunk(num0, ds[k], hbase);
    num := Shl16(num0) + ds[k];
    if num < 0 {
      num := num + 4294967296;
    }
    var q := num / hbase;
    ds[k] := q;
    num := num % hbase;
    assert ds[k..n] == [q] + tail;
    ValCons(q, tail);
    MulAdd(hbase, q, BASE * Val(tail));
    MulAssoc(BASE, hbase, Val(tail));
  }

  lemma QuotientOfChunk(hi: int, lo: int, d: int)
    requires 0 <= hi < d && 0 <= lo < BASE
    ensures 0 <= (hi * 65536 + lo) / d < BASE
    ensures hi * 65536 + lo == d * ((hi * 65536 + lo) / d) + (hi * 65536 + lo) % d
    ensures 0 <= (hi * 65536 + lo) % d < d
  {
    QuotientDigit(hi, lo, d);
  }

  /** The `while (k--)` pass: divide the first `i` digits by the chunk base, in place; the remainder is the chunk. */
  method DivideByChunk(ds: array<int>, i: nat, hbase: int) returns (num: int)
    requires i <= ds.Length && 0 < hbase <= 0x10000 && IsDigits(ds[..])
    modifies ds
    ensures IsDigits(ds[..]) && 0 <= num < hbase
    ensures forall m :: i <= m < ds.Length ==> ds[m] == old(ds[m])
    ensures old(Val(ds[..i])) == hbase * Val(ds[..i]) + num
  {
    hide Val;
    ghost var zs := ds[..i];
    var k := i;
    num := 0;
    assert zs[i..] == [] && ds[i..i] == [];
    ValEmpty();
    while k > 0
      invariant 0 <= k <= i && IsDigits(ds[..]) && 0 <= num < hbase
      invariant forall m :: i <= m < ds.Length ==> ds[m] == old(ds[m])
      invariant forall m :: 0 <= m < k ==> ds[m] == zs[m]
      invariant Val(zs[k..]) == hbase * Val(ds[k..i]) + num
    {
      k := k - 1;
      ValTail(zs, k);
      num := ChunkStep(ds, k, i, hbase, num);
    }
    assert zs[0..] == zs && ds[0..i] == ds[..i];
  }

  /** No leading zero among the first `i` digits. */
  predicate TopNonzero(ds: seq<int>, i: nat)
    requires i <= |ds|
  {
    i == 0 || ds[i - 1] != 0
  }

  /** Dividing by at most the base shortens a number by at most one digit. */
  lemma ShrinksByOne(before: seq<int>, after: seq<int>, hbase: int, num: int)
    requires |before| == |after| > 0 && IsDigits(before) && IsDigits(after) && before[|before| - 1] != 0
    requires 0 < hbase <= 0x10000 && 0 <= num < hbase && Val(before) == hbase * Val(after) + num
    ensures |after| > 1 && after[|after| - 1] == 0 ==> after[|after| - 2] != 0
  {
    hide Val, Pow;
    var n := |after|;
    if n > 1 && after[n - 1] == 0 && after[n - 2] == 0 {
      AtLeastTopPower(before);
      ValDropZero(after, n - 1);
      ValDropZero(after, n - 2);
      assert after[..n] == after;
      ValBound(after[..n - 2]);
      PowStep(BASE, n - 2);
      ChunkTooSmall(hbase, Val(after), num, Pow(BASE, n - 2));
    }
  }

  lemma ChunkTooSmall(h: int, v: int, num: int, p: int)
    requires 0 < h <= 0x10000 && 0 <= num < h && 0 <= v < p
    ensures h * v + num < 0x1_0000 * p
  {
    MulLe(v + 1, p, h);
    MulAdd(h, v, 1);
    MulLe(h, 0x10000, p);
  }

  /** What is printed so far: `v` still to come, then the digits of `s`. */
  ghost function Printed(v: int, s: string, base: nat): int {
    v * Pow(base, |s|) + Denotes(s, base)
  }

  ghost predicate LowerDigits(s: string, base: int) {
    AllDigits(s, base) && LowerCase(s)
  }

  /** One digit moves from the number in hand to the text. */
  lemma DigitMoves(v: int, num: int, s: string, base: nat, k: nat)
    requires 1 < base <= 16 && LowerDigits(s, base) && 0 <= num < Pow(base, k + 1)
    ensures var c := DIGIT_CHARS[num % base];
      && LowerDigits([c] + s, base) && 0 <= num / base < Pow(base, k)
      && Printed(v * Pow(base, k) + num / base, [c] + s, base) == Printed(v * Pow(base, k + 1) + num, s, base)
  {
    hide Denotes, Pow, DigitValue;
    var q, c := num / base, num % base;
    DigitCharValue(c);
    DigitCharLower(c);
    DenotesCons(DIGIT_CHARS[c], s, base);
    PowStep(base, k);
    PowStep(base, |s|);
    MovedDigit(v, Pow(base, k), num, q, c, Pow(base, |s|), base);
  }

  lemma DigitCharLower(c: int)
    requires 0 <= c < 16
    ensures !('A' <= DIGIT_CHARS[c] <= 'F')
  {
  }

  lemma MovedDigit(v: int, p: int, num: int, q: int, c: int, w: int, b: int)
    requires 1 < b && 0 <= num < b * p && q == num / b && c == num % b
    ensures (v * p + q) * (b * w) + c * w == (v * (b * p) + num) * w
    ensures 0 <= q < p
  {
    assert num == b * q + c;
    if q >= p {
      MulLe(p, q, b);
    }
    MulAssoc(v, b, p);
    assert (v * p + q) * (b * w) == ((v * p + q) * b) * w by {
      MulAssoc(v * p + q, b, w);
    }
    assert (v * p + q) * b == v * (b * p) + q * b by {
      MulAdd(b, v * p, q);
      assert v * p * b == v * (b * p);
    }
    MulAdd(w, v * (b * p) + q * b, c);
  }

  /** The inner `while (k--)`: up to four digits of the chunk; on the last chunk it stops at its leading digit. */
  method PrintChunk(s0: string, num0: int, j0: int, base: int, last: bool, ghost v: int) returns (s: string, j: int)
    requires PrintBase(base) && LowerDigits(s0, base) && 0 <= num0 < ChunkBase(base) && (last ==> v == 0)
    ensures LowerDigits(s, base) && |s0| <= |s| && j == j0 - (|s| - |s0|) && (!last ==> |s| == |s0| + 4)
    ensures Printed(v, s, base) == Printed(v * ChunkBase(base) + num0, s0, base)
  {
    hide Printed, LowerDigits, Pow;
    ChunkIsFourDigits(base);
    PowZero(base);
    var k, num := 4, num0;
    s, j := s0, j0;
    while k > 0
      invariant 0 <= k <= 4 && LowerDigits(s, base) && |s| == |s0| + 4 - k && j == j0 - (|s| - |s0|)
      invariant 0 <= num < Pow(base, k)
      invariant Printed(v * Pow(base, k) + num, s, base) == Printed(v * ChunkBase(base) + num0, s0, base)
    {
      k := k - 1;
      DigitMoves(v, num, s, base, k);
      var c := num % base;
      s := [DIGIT_CHARS[c]] + s;
      j := j - 1;
      num := num / base;
      if last && num == 0 {
        return;
      }
    }
  }

  lemma PowZero(b: nat)
    ensures Pow(b, 0) == 1
  {
  }

  /**
    Either the number in hand has no leading zero, or it never had a shorter one and every pass has taken off a digit.
   */
  ghost predicate OnTime(ds: seq<int>, i: nat, s: string, len: nat)
    requires i <= |ds|
  {
    TopNonzero(ds, i) || |s| == 4 * (len - i)
  }

  /** While digits remain, the budget is not used up, so `while (i && j)` never stops early. */
  lemma BudgetLeft(mag: int, ds: seq<int>, s: string, base: nat, len: nat)
    requires PrintBase(base) && IsDigits(ds) && ds != [] && OnTime(ds, |ds|, s, len)
    requires LowerDigits(s, base) && mag == Printed(Val(ds), s, base) && mag < Pow(BASE, len)
    ensures |s| < Budget(base, len)
  {
    if TopNonzero(ds, |ds|) {
      hide Val, Pow, Budget, Denotes;
      AtLeastTopPower(ds);
      DenotesBound(s, base);
      PowPositive(base, |s|);
      MulLe(1, Val(ds), Pow(base, |s|));
      BudgetSuffices(base, len, |s|);
    }
  }

  /** A leading zero is still there after the division. */
  lemma StaysZero(before: seq<int>, after: seq<int>, hbase: int, num: int)
    requires |before| == |after| > 0 && IsDigits(before) && IsDigits(after) && before[|before| - 1] == 0
    requires 0 < hbase && 0 <= num && Val(before) == hbase * Val(after) + num
    ensures after[|after| - 1] == 0 && Val(after) <= Val(before)
  {
    hide Val, Pow;
    var n := |after|;
    ValBound(after);
    MulLe(1, hbase, Val(after));
    ValDropZero(before, n - 1);
    assert before[..n] == before;
    ValBound(before[..n - 1]);
    if after[n - 1] != 0 {
      AtLeastTopPower(after);
    }
  }

  /** One pass of the printer's outer loop. */
  method PrintPass(ds: array<int>, i0: nat, base: int, s0: string, j0: int, ghost len: nat)
      returns (i: nat, s: string, j: int)
    requires PrintBase(base) && 0 < i0 <= ds.Length && i0 <= len && IsDigits(ds[..]) && LowerDigits(s0, base)
    requires OnTime(ds[..], i0, s0, len)
    modifies ds
    ensures IsDigits(ds[..]) && i <= i0 && OnTime(ds[..], i, s, len)
    ensures LowerDigits(s, base) && j - j0 == |s0| - |s|
    ensures Printed(Val(ds[..i]), s, base) == old(Printed(Val(ds[..i0]), s0, base))
    ensures 0 <= Val(ds[..i]) && i + Val(ds[..i]) < i0 + old(Val(ds[..i0]))
  {
    hide Printed, LowerDigits, Val, Pow;
    ghost var before := ds[..i0];
    var hbase := ChunkBase(base);
    var num := DivideByChunk(ds, i0, hbase);
    if before[i0 - 1] != 0 {
      ShrinksByOne(before, ds[..i0], hbase, num);
      AtLeastTopPower(before);
      ValBound(ds[..i0]);
      Shrinks(hbase, Val(ds[..i0]), num, Val(before));
    } else {
      StaysZero(before, ds[..i0], hbase, num);
    }
    i := i0;
    if ds[i - 1] == 0 {
      ValDropZero(ds[..], i - 1);
      assert ds[..][..i] == ds[..i] && ds[..][..i - 1] == ds[..i - 1];
      i := i - 1;
    }
    ValEmpty();
    assert ds[..0] == [];
    ValBound(ds[..i]);
    s, j := PrintChunk(s0, num, j0, base, i == 0, Val(ds[..i]));
  }

  lemma Shrinks(h: int, v: int, num: int, w: int)
    requires 1 < h && 0 <= num && 0 <= v && w == h * v + num && 0 < w
    ensures v < w && v * h == h * v
  {
    if v > 0 {
      MulLe(2, h, v);
    }
  }

  /** The outer loop of the printer. */
  method PrintLoop(ds: array<int>, len: nat, base: int) returns (s: string)
    requires PrintBase(base) && 0 < len <= ds.Length && IsDigits(ds[..])
    modifies ds
    ensures LowerDigits(s, base) && Denotes(s, base) == old(Val(ds[..len]))
  {
    hide Printed, LowerDigits, Val, Pow, Budget;
    ghost var mag := Val(ds[..len]);
    ValBound(ds[..len]);
    NothingPrinted(mag, base);
    var i, j := len, Budget(base, len);
    s := "";
    BudgetPositive(base, len);
    while i != 0 && j != 0
      invariant 0 <= i <= len && IsDigits(ds[..]) && OnTime(ds[..], i, s, len)
      invariant LowerDigits(s, base) && j == Budget(base, len) - |s|
      invariant Printed(Val(ds[..i]), s, base) == mag
      invariant i != 0 ==> j > 0
      invariant Val(ds[..i]) >= 0
      decreases i + Val(ds[..i])
    {
      i, s, j := PrintPass(ds, i, base, s, j, len);
      if i != 0 {
        BudgetLeft(mag, ds[..i], s, base, len);
      }
    }
    assert ds[..0] == [];
    ValEmpty();
    AllPrinted(s, base);
  }

  lemma NothingPrinted(v: int, base: nat)
    ensures Printed(v, "", base) == v && LowerDigits("", base)
  {
  }

  lemma AllPrinted(s: string, base: nat)
    ensures Printed(0, s, base) == Denotes(s, base)
  {
  }

  lemma BudgetPositive(base: int, len: nat)
    ensures Budget(base, len) > 0
  {
  }

  /**
    What printing promises of a number of `len` digits: an optional minus sign and the canonical lower-case numeral of
    the magnitude. Zero is "0", but of two or more zero digits only the sign is printed.
   */
  ghost predicate IsTextOf(s: string, sign: bool, mag: int, len: nat, base: int)
    requires 0 <= base
  {
    if mag == 0 && len <= 1 then s == "0"
    else
      && (!sign ==> s != "" && s[0] == '-')
      && var body := if sign then s else s[1..];
         if mag == 0 then body == ""
         else Canonical(body, base) && LowerCase(body) && Denotes(body, base) == mag
  }

  method ToStringBase(x: BigInt, base: int) returns (s: string)
    requires x.Valid() && PrintBase(base)
    ensures IsTextOf(s, x.sign, x.Mag(), x.len, base)
  {
    hide Val, Denotes;
    ValEmpty();
    assert x.digits[..0] == [];
    if x.len == 0 {
      return "0";
    }
    if x.len == 1 && x.digits[0] == 0 {
      ValZero(x.digits[..1]);
      return "0";
    }
    if x.len == 1 {
      AtLeastTopPower(x.digits[..1]);
    }
    var t := x.Clone();
    assert t.digits[..x.len] == t.digits[..];
    s := PrintLoop(t.digits, x.len, base);
    s := StripZeros(s, base);
    if !x.sign {
      s := "-" + s;
    }
  }

  /** The final loop of the printer. */
  method StripZeros(s: string, base: int) returns (r: string)
    requires PrintBase(base) && LowerDigits(s, base)
    ensures Denotes(r, base) == Denotes(s, base) >= 0 && LowerCase(r)
    ensures if Denotes(s, base) == 0 then r == "" else Canonical(r, base)
  {
    var i := 0;
    while i < |s| && s[i] == '0'
      invariant 0 <= i <= |s| && forall m :: 0 <= m < i ==> s[m] == '0'
    {
      i := i + 1;
    }
    DenotesSkipZeros(s, i, base);
    DenotesBound(s, base);
    r := s[i..];
    if r != "" {
      assert Canonical(r, base);
      CanonicalAtLeast(r, base);
      PowPositive(base, |r| - 1);
    }
  }

  // ---- The text as a number again ----

  predicate AllZeros(s: string) {
    s != "" && forall i :: 0 <= i < |s| ==> s[i] == '0'
  }

  /**
    Whether the text of a number, an optional minus sign and decimal digits, equals 0 in JavaScript; "-" is not a
    number.
   */
  predicate EqualsZero(s: string) {
    s == "" || AllZeros(if s[0] == '-' then s[1..] else s)
  }

  /** A number is found equal to 0 if it is zero, except a negative one of two or more zero digits. */
  lemma ZeroText(s: string, sign: bool, mag: int, len: nat)
    requires IsTextOf(s, sign, mag, len, 10)
    ensures EqualsZero(s) <==> mag == 0 && (sign || len <= 1)
  {
    if mag != 0 {
      var body := if sign then s else s[1..];
      assert body[0] != '0' && IsDigitOf(body[0], 10) && body[0] != '-';
      assert !AllZeros(body);
      assert s != "" && (if s[0] == '-' then s[1..] else s) == body;
    } else if len > 1 && !sign {
      assert s[1..] == "";
    }
  }

  // ---- Parsing ----

  datatype Literal = Literal(sign: bool, mag: int)

  predicate ParseBase(base: int) {
    base == 0 || PrintBase(base)
  }

  predicate StartsWith(s: string, zero: char, lower: char, upper: char) {
    |s| >= 2 && s[0] == zero && (s[1] == lower || s[1] == upper)
  }

  /** The base an unsigned literal is read in: the one passed, or the one its prefix asks for. */
  function EffectiveBase(s: string, base: int): int {
    if base != 0 then base
    else if s == "" || s[0] != '0' then 10
    else if StartsWith(s, '0', 'x', 'X') then 16
    else if StartsWith(s, '0', 'b', 'B') then 2
    else 8
  }

  /** The literal without its base prefix. */
  function DropPrefix(s: string, base: int): string {
    if (base == 16 && StartsWith(s, '0', 'x', 'X')) || (base == 2 && StartsWith(s, '0', 'b', 'B')) then s[2..] else s
  }

  /**
    What a string means, without any of the parser's bookkeeping: an optional sign, an
    optional base prefix, and the longest run of digits; no digits at all mean zero, and
    nothing after the sign (or the terminator character `@`) is not a number.
   */
  function Interpret(str: string, base: int): Option<Literal>
    requires ParseBase(base)
  {
    var sign := str == "" || str[0] != '-';
    var rest := if str != "" && (str[0] == '+' || str[0] == '-') then str[1..] else str;
    if rest == "" || rest[0] == '@' then None
    else
      var b := EffectiveBase(rest, base);
      Some(Literal(sign, Denotes(DigitRun(DropPrefix(rest, b), b), b)))
  }

  /** The inner loop `while (i < blen)` of the parser. */
  method CarryThrough(z: array<int>, start: nat, blen: nat, base: int, num0: int, ghost zs: seq<int>) returns (num: int)
    requires 0 < base <= 16 && start <= blen <= z.Length == |zs| && IsDigits(z[..]) && 0 <= num0 < BASE
    requires forall m :: start <= m < z.Length ==> z[m] == zs[m]
    modifies z
    ensures IsDigits(z[..]) && 0 <= num < BASE
    ensures forall m :: blen <= m < z.Length ==> z[m] == zs[m]
    ensures Val(z[0..blen] + [num + Times(base, Val(zs[blen..]))])
         == old(Val(z[0..start] + [num0 + Times(base, Val(zs[start..]))]))
  {
    hide Val, Times;
    var i := start;
    num := num0;
    while i < blen
      invariant start <= i <= blen && IsDigits(z[..]) && 0 <= num < BASE
      invariant forall m :: i <= m < z.Length ==> z[m] == zs[m]
      invariant Val(z[0..i] + [num + Times(base, Val(zs[i..]))])
             == old(Val(z[0..start] + [num0 + Times(base, Val(zs[start..]))]))
    {
      ValTail(zs, i);
      num := TakeStep(z, i, base, num, Val(zs[i + 1..]));
      i := i + 1;
    }
  }

  /** The digit loop for one character: `z := z * base + c`, growing the digits in use as carries need it. */
  method TakeDigit(z: array<int>, blen0: nat, base: int, c: int) returns (blen: nat)
    requires 0 < base <= 16 && 0 <= c < base && blen0 <= z.Length && IsDigits(z[..])
    requires forall m :: blen0 <= m < z.Length ==> z[m] == 0
    requires Val(z[..]) * base + c < Pow(BASE, z.Length)
    modifies z
    ensures IsDigits(z[..]) && blen0 <= blen <= z.Length
    ensures forall m :: blen <= m < z.Length ==> z[m] == 0
    ensures Val(z[..]) == old(Val(z[..])) * base + c
  {
    hide Val, Pow, Times;
    ghost var zs := z[..];
    ghost var total := c + Times(base, Val(zs));
    TimesIs(base, Val(zs));
    assert zs[0..] == zs && z[0..0] + [total] == [total];
    ValSingle(total);
    blen := blen0;
    var num := CarryThrough(z, 0, blen, base, c, zs);
    while num != 0
      invariant blen0 <= blen <= z.Length && IsDigits(z[..]) && 0 <= num < BASE
      invariant forall m :: blen <= m < z.Length ==> z[m] == zs[m] == 0
      invariant Val(z[0..blen] + [num + Times(base, Val(zs[blen..]))]) == total
      decreases z.Length - blen
    {
      if blen == z.Length {
        FullArray(z[0..blen], num, zs[blen..], base);
      }
      num := CarryThrough(z, blen, blen + 1, base, num, zs);
      blen := blen + 1;
    }
    RestZero(z[0..blen], zs[blen..], base);
    assert z[0..blen] + zs[blen..] == z[..];
  }

  lemma TimesIs(a: int, b: int)
    ensures Times(a, b) == b * a
  {
  }

  lemma FullArray(z: seq<int>, num: int, rest: seq<int>, base: int)
    requires IsDigits(z) && num >= 1 && rest == []
    ensures Val(z + [num + Times(base, Val(rest))]) >= Pow(BASE, |z|)
  {
    ValEmpty();
    NoRoom(z, num);
  }

  method TakeStep(z: array<int>, i: nat, base: int, num0: int, ghost rest: int) returns (num: int)
    requires i < z.Length && 0 < base <= 16 && 0 <= num0 < BASE && IsDigits(z[..])
    modifies z
    ensures IsDigits(z[..]) && 0 <= num < BASE
    ensures forall m :: 0 <= m < z.Length && m != i ==> z[m] == old(z[m])
    ensures Val(z[0..i + 1] + [num + Times(base, rest)])
         == old(Val(z[0..i] + [num0 + Times(base, z[i] + BASE * rest)]))
  {
    hide Val;
    MulAdd(base, z[i], BASE * rest);
    MulAssoc(BASE, base, rest);
    MulLe(z[i], 0xffff, base);
    MulLe(0, z[i], base);
    num := num0 + z[i] * base;
    num := Emit(z, 0, i, num, true, base * rest);
  }

  /** A carry out of the full array would exceed its capacity. */
  lemma NoRoom(z: seq<int>, num: int)
    requires IsDigits(z) && num >= 1
    ensures Val(z + [num]) >= Pow(BASE, |z|)
  {
    hide Val, Pow;
    ValOversized(z, num);
    PowPositive(BASE, |z|);
    MulLe(1, num, Pow(BASE, |z|));
  }

  lemma RestZero(low: seq<int>, high: seq<int>, base: int)
    requires forall m :: 0 <= m < |high| ==> high[m] == 0
    ensures Val(low + [0 + Times(base, Val(high))]) == Val(low + high)
  {
    ValZero(high);
    ValAppend(low, high);
    ValSnoc(low, 0);
  }

  /** The terminator ends every run of digits. */
  lemma {:induction false} RunBeforeTerminator(s: string, base: int)
    requires base <= 16
    ensures DigitRun(s + "@", base) == DigitRun(s, base)
  {
    if s != "" {
      assert (s + "@")[1..] == s[1..] + "@";
      RunBeforeTerminator(s[1..], base);
    }
  }

  lemma {:induction false} RunAfterZeros(s: string, k: nat, base: nat)
    requires 0 < base && k <= |s| && forall m :: 0 <= m < k ==> s[m] == '0'
    ensures Denotes(DigitRun(s, base), base) == Denotes(DigitRun(s[k..], base), base)
  {
    if k == 0 {
      assert s[0..] == s;
    } else {
      RunAfterZeros(s[1..], k - 1, base);
      assert s[1..][k - 1..] == s[k..];
      assert DigitRun(s, base) == ['0'] + DigitRun(s[1..], base);
      DenotesCons('0', DigitRun(s[1..], base), base);
    }
  }

  /** An array of len digits holds every numeral of n digits when 4n <= 16 * len (3n in base 8). */
  lemma Capacity(s: string, base: nat, len: nat)
    requires PrintBase(base) && AllDigits(s, base)
    requires (if base == 8 then 3 else 4) * |s| <= 16 * len
    ensures 0 <= Denotes(s, base) < Pow(BASE, len)
  {
    hide Pow, Denotes;
    DenotesBound(s, base);
    SmallPowers();
    PowPow(2, 16, len);
    if base == 8 {
      PowPow(2, 3, |s|);
      PowMonotone(2, 3 * |s|, 16 * len);
    } else {
      PowPow(2, 4, |s|);
      PowBaseMonotone(base, 16, |s|);
      PowMonotone(2, 4 * |s|, 16 * len);
    }
  }

  /** Shorter prefixes denote less. */
  lemma PrefixDenotesLess(s: string, k: nat, base: nat)
    requires 0 < base <= 16 && AllDigits(s, base) && k < |s|
    ensures Denotes(s[..k], base) * base + DigitValue(s[k]) == Denotes(s[..k + 1], base)
    ensures Denotes(s[..k + 1], base) <= Denotes(s, base)
    decreases |s| - k
  {
    assert s[..k + 1] == s[..k] + [s[k]];
    DenotesSnoc(s[..k], s[k], base);
    if k + 1 < |s| {
      PrefixDenotesLess(s, k + 1, base);
      assert AllDigits(s[..k + 1], base);
      DenotesBound(s[..k + 1], base);
      MulLe(1, base, Denotes(s[..k + 1], base));
    } else {
      assert s[..k + 1] == s;
    }
  }

  /** The main loop of the parser: the digits from `start` on go into `z` until a character is no digit. */
  method ParseDigits(t: string, start: nat, base: int, z: array<int>)
    requires PrintBase(base) && start < |t| && t[|t| - 1] == '@' && IsDigits(z[..]) && 1 <= z.Length
    requires forall m :: 0 <= m < z.Length ==> z[m] == 0
    requires (if base == 8 then 3 else 4) * (|t| - start) <= 16 * z.Length
    modifies z
    ensures IsDigits(z[..]) && Val(z[..]) == Denotes(DigitRun(t[start..], base), base)
  {
    hide Val, Pow, Denotes, DigitRun;
    ghost var run := DigitRun(t[start..], base);
    ValZero(z[..]);
    Capacity(run, base, z.Length);
    NoDigitsDenoteZero(base);
    var i, blen := start, 1;
    assert run[..0] == "";
    while true
      invariant start <= i < |t| && i - start <= |run| && IsDigits(z[..]) && 1 <= blen <= z.Length
      invariant forall m :: blen <= m < z.Length ==> z[m] == 0
      invariant Val(z[..]) == Denotes(run[..i - start], base)
      decreases |t| - i
    {
      var ch := t[i];
      if ch == '@' {
        break;
      }
      var c := if DigitValue(ch) < 16 then DigitValue(ch) else base;
      if c >= base {
        break;
      }
      StillInRun(t[start..], i - start, base);
      PrefixDenotesLess(run, i - start, base);
      blen := TakeDigit(z, blen, base, c);
      i := i + 1;
    }
    RunEnds(t[start..], i - start, base);
    assert run[..i - start] == run;
  }

  lemma NoDigitsDenoteZero(base: nat)
    ensures Denotes("", base) == 0
  {
  }

  lemma StillInRun(s: string, k: nat, base: int)
    requires k < |s| && k <= |DigitRun(s, base)| && IsDigitOf(s[k], base)
    ensures k < |DigitRun(s, base)| && DigitRun(s, base)[k] == s[k]
  {
  }

  lemma RunEnds(s: string, k: nat, base: int)
    requires k < |s| && k <= |DigitRun(s, base)| && !IsDigitOf(s[k], base)
    ensures k == |DigitRun(s, base)|
  {
    var r := DigitRun(s, base);
    assert forall m :: 0 <= m < |r| ==> r[m] == s[m] && IsDigitOf(s[m], base);
  }

  method SkipZeros(t: string, start: nat) returns (i: nat)
    requires start < |t| && t[|t| - 1] == '@'
    ensures start <= i < |t| && t[i] != '0' && forall m :: start <= m < i ==> t[m] == '0'
  {
    i := start;
    while t[i] == '0'
      invariant start <= i < |t| && forall m :: start <= m < i ==> t[m] == '0'
      decreases |t| - i
    {
      i := i + 1;
    }
  }

  /** The base chosen from the prefix when the caller passes none; `t` is the rest of the text with its terminator. */
  method ChooseBase(t: string, p: nat, base: int) returns (b: int)
    requires ParseBase(base) && p + 1 < |t| && t[|t| - 1] == '@' && t[p] != '@'
    ensures b == EffectiveBase(t[p..|t| - 1], base) && PrintBase(b)
  {
    b := base;
    if b == 0 {
      if t[p] == '0' {
        var c := t[p + 1];
        if c == 'x' || c == 'X' {
          b := 16;
        } else if c == 'b' || c == 'B' {
          b := 2;
        } else {
          b := 8;
        }
      } else {
        b := 10;
      }
    }
  }

  /** The base prefix, if there is one for this base. */
  method AfterPrefix(t: string, p: nat, b: int) returns (q: nat)
    requires PrintBase(b) && p + 1 < |t| && t[|t| - 1] == '@'
    ensures p <= q < |t| && t[q..|t| - 1] == DropPrefix(t[p..|t| - 1], b)
    ensures q > p ==> q >= 1 && !IsDigitOf(t[q - 1], b)
    ensures b == 8 ==> q == p
  {
    q := p;
    if b == 16 && t[q] == '0' && (t[q + 1] == 'x' || t[q + 1] == 'X') {
      q := q + 2;
    } else if b == 2 && t[q] == '0' && (t[q + 1] == 'b' || t[q + 1] == 'B') {
      q := q + 2;
    }
  }

  /** Prefix and leading zeros: where the digits start, and how many array digits the parser asks for. */
  method FindDigits(t: string, p: nat, b: int) returns (start: nat, len: nat)
    requires PrintBase(b) && p + 1 < |t| && t[|t| - 1] == '@' && t[p] != '@'
    ensures start < |t| && 1 <= len && (if b == 8 then 3 else 4) * (|t| - start) <= 16 * len
    ensures Denotes(DigitRun(t[start..], b), b) == Denotes(DigitRun(DropPrefix(t[p..|t| - 1], b), b), b)
  {
    hide Denotes, DropPrefix, DigitRun, IsDigitOf;
    var q := AfterPrefix(t, p, b);
    start := SkipZeros(t, q);
    SkippedPrefix(t, p, q, start, b);
    if b == 8 {
      len := 3 * (|t| - start);
    } else {
      if t[start] == '@' {
        BackOne(t, start, b);
        start := start - 1;
      }
      len := 4 * (|t| - start);
    }
    len := len / 16 + 1;
  }

  /** Skipping the prefix and the zeros behind it does not change what the digits denote. */
  lemma SkippedPrefix(t: string, p: nat, q: nat, start: nat, b: nat)
    requires PrintBase(b) && p < |t| && t[|t| - 1] == '@' && p <= q <= start < |t|
    requires t[q..|t| - 1] == DropPrefix(t[p..|t| - 1], b)
    requires forall m :: q <= m < start ==> t[m] == '0'
    ensures Denotes(DigitRun(t[start..], b), b) == Denotes(DigitRun(DropPrefix(t[p..|t| - 1], b), b), b)
  {
    hide Denotes, DropPrefix, DigitRun;
    RunAfterZeros(t[q..], start - q, b);
    assert t[q..][start - q..] == t[start..];
    RunBeforeTerminator(t[q..|t| - 1], b);
    assert t[q..] == t[q..|t| - 1] + "@";
  }

  /** Stepping back over a zero, or over the letter of a base prefix, in front of the terminator. */
  lemma BackOne(t: string, start: nat, b: nat)
    requires PrintBase(b) && 0 < start < |t| && t[start] == '@'
    requires t[start - 1] == '0' || !IsDigitOf(t[start - 1], b)
    ensures Denotes(DigitRun(t[start - 1..], b), b) == Denotes(DigitRun(t[start..], b), b)
  {
    hide Denotes;
    assert t[start - 1..][1..] == t[start..];
    assert DigitRun(t[start..], b) == "";
    NoDigitsDenoteZero(b);
    if t[start - 1] == '0' {
      assert DigitRun(t[start - 1..], b) == ['0'] + DigitRun(t[start..], b);
      DenotesCons('0', "", b);
    }
  }

  /** `bigint_from_string`: the parsed number is what `Interpret` says, for every string and every base passed. */
  method FromString(str: string, base: int) returns (z: Option<BigInt>)
    requires ParseBase(base)
    ensures z.None? <==> Interpret(str, base).None?
    ensures z.Some? ==> fresh(z.value) && fresh(z.value.digits) && z.value.Valid() && z.value.Normal()
    ensures z.Some? ==> Literal(z.value.sign, z.value.Mag()) == Interpret(str, base).value
  {
    hide Val, Denotes, DigitRun, EffectiveBase, DropPrefix;
    var t := str + "@";
    var p, sign := 0, true;
    if t[p] == '+' {
      p := p + 1;
    } else if t[p] == '-' {
      p := p + 1;
      sign := false;
    }
    ghost var rest := t[p..|t| - 1];
    assert rest == if str != "" && (str[0] == '+' || str[0] == '-') then str[1..] else str;
    if t[p] == '@' {
      return None;
    }
    var b := ChooseBase(t, p, base);
    var start, len := FindDigits(t, p, b);
    var big := new BigInt(len, sign);
    ParseDigits(t, start, b, big.digits);
    assert big.digits[..big.len] == big.digits[..];
    big.Norm();
    z := Some(big);
  }
}
