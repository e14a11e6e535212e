/** Invite codes: a player id written in base 36, and read back. */
module InviteCodes {

  const SOURCE := "0123456789ABCDEFGHIJKLMNOPQRSTUVWXYZ"
  const BASE := 36
  const SCRATCH := 10
  const TWO31 := 0x8000_0000
  const TWO32 := 0x1_0000_0000

  // ---- numbers and digits

  ghost function Pow(n: nat): (p: nat)
    ensures p > 0
  {
    if n == 0 then 1 else BASE * Pow(n - 1)
  }

  /** The power of any number. */
  ghost function PowerOf(num: int, n: nat): int {
    if n == 0 then 1 else num * PowerOf(num, n - 1)
  }

  lemma {:induction false} PowIsPower(n: nat)
    ensures PowerOf(BASE, n) == Pow(n)
  {
    if n > 0 {
      PowIsPower(n - 1);
    }
  }

  ghost predicate Digits(ds: seq<int>) {
    forall i | 0 <= i < |ds| :: 0 <= ds[i] < BASE
  }

  /** The number that digits stand for, most significant first. */
  ghost function Value(ds: seq<int>): int {
    if ds == [] then 0 else BASE * Value(ds[..|ds| - 1]) + ds[|ds| - 1]
  }

  /** The digits of a number, without leading zeros. */
  ghost function DigitsOf(a: nat): (ds: seq<int>)
    ensures Digits(ds) && ds != []
  {
    if a < BASE then [a] else DigitsOf(a / BASE) + [a % BASE]
  }

  lemma {:induction false} ValueOfDigits(a: nat)
    ensures Value(DigitsOf(a)) == a
  {
    if a < BASE {
      assert [a][..0] == [];
      assert Value([a]) == BASE * Value([a][..0]) + a;
    } else {
      ValueOfDigits(a / BASE);
      assert DigitsOf(a)[..|DigitsOf(a)| - 1] == DigitsOf(a / BASE);
    }
  }

  /** No leading zero, unless it is all there is. */
  ghost predicate Canonical(ds: seq<int>) {
    ds != [] && Digits(ds) && (ds[0] == 0 ==> |ds| == 1)
  }

  lemma {:induction false} CanonicalDigits(a: nat)
    ensures Canonical(DigitsOf(a)) && (a > 0 ==> DigitsOf(a)[0] > 0)
  {
    if a >= BASE {
      CanonicalDigits(a / BASE);
    }
  }

  lemma {:induction false} ValuePositive(ds: seq<int>)
    requires Digits(ds)
    ensures Value(ds) >= 0 && (ds != [] && ds[0] > 0 ==> Value(ds) > 0)
    decreases |ds|
  {
    if ds != [] {
      ValuePositive(ds[..|ds| - 1]);
    }
  }

  /** Digits are determined by the number they stand for. */
  lemma {:induction false} DigitsOfValue(ds: seq<int>)
    requires Canonical(ds)
    ensures Value(ds) >= 0 && DigitsOf(Value(ds)) == ds
    decreases |ds|
  {
    var n := |ds| - 1;
    ValuePositive(ds);
    if n == 0 {
      assert ds == [ds[0]] && ds[..0] == [];
    } else {
      var rest := ds[..n];
      DigitsOfValue(rest);
      ValuePositive(rest);
      assert ds == rest + [ds[n]];
      DivMod(Value(rest), ds[n]);
    }
  }

  lemma DivMod(q: nat, r: nat)
    requires r < BASE
    ensures (BASE * q + r) / BASE == q && (BASE * q + r) % BASE == r
  {
  }

  /** Changing one digit changes the number by that many times the digit's power. */
  lemma {:induction false} ValueSet(ds: seq<int>, i: nat, d: int)
    requires i < |ds|
    ensures Value(ds[i := d]) == Value(ds) + (d - ds[i]) * Pow(|ds| - 1 - i)
    decreases |ds|
  {
    var n := |ds| - 1;
    var es := ds[i := d];
    if i == n {
      assert es[..n] == ds[..n];
      assert Pow(0) == 1;
    } else {
      assert es[..n] == ds[..n][i := d];
      ValueSet(ds[..n], i, d);
      var p := Pow(n - 1 - i);
      assert Pow(n - i) == BASE * p;
      Distribute(Value(ds[..n]), d - ds[i], p);
    }
  }

  lemma Distribute(v: int, d: int, p: int)
    ensures BASE * (v + d * p) == BASE * v + d * (BASE * p)
  {
  }

  lemma {:induction false} ZeroValue(ds: seq<int>)
    requires forall i | 0 <= i < |ds| :: ds[i] == 0
    ensures Value(ds) == 0
    decreases |ds|
  {
    if ds != [] {
      ZeroValue(ds[..|ds| - 1]);
    }
  }

  lemma {:induction false} PowGrows(m: nat, n: nat)
    requires m <= n
    ensures Pow(m) <= Pow(n)
  {
    if m < n {
      PowGrows(m, n - 1);
    }
  }

  lemma SixDigits()
    ensures Pow(6) > TWO31
  {
    assert Pow(2) == 1296;
    assert Pow(4) == 1679616;
  }

  // ---- codes

  function IndexOf(c: char): int {
    if '0' <= c <= '9' then (c as int) - ('0' as int)
    else if 'A' <= c <= 'Z' then (c as int) - ('A' as int) + 10
    else -1
  }

  ghost function Text(ds: seq<int>): (s: string)
    requires Digits(ds)
    ensures |s| == |ds| && forall i | 0 <= i < |ds| :: s[i] == SOURCE[ds[i]]
  {
    seq(|ds|, i requires 0 <= i < |ds| => SOURCE[ds[i]])
  }

  /** Codes are written in base 36 with the highest digit first. */
  lemma HighestFirst(a: nat)
    ensures Text(DigitsOf(a)) ==
      if a < 36 then ["0123456789ABCDEFGHIJKLMNOPQRSTUVWXYZ"[a]]
      else Text(DigitsOf(a / 36)) + ["0123456789ABCDEFGHIJKLMNOPQRSTUVWXYZ"[a % 36]]
  {
  }

  ghost predicate Readable(code: string) {
    forall i | 0 <= i < |code| :: IndexOf(code[i]) >= 0
  }

  ghost function Read(code: string): (ds: seq<int>)
    ensures |ds| == |code| && forall i | 0 <= i < |code| :: ds[i] == IndexOf(code[i])
  {
    seq(|code|, i requires 0 <= i < |code| => IndexOf(code[i]))
  }

  lemma SourceIndex(d: int)
    requires 0 <= d < BASE
    ensures IndexOf(SOURCE[d]) == d
  {
    if d < 10 {
      assert SOURCE[d] == ('0' as int + d) as char;
    } else {
      assert SOURCE[d] == ('A' as int + d - 10) as char;
    }
  }

  lemma IndexSource(c: char)
    requires IndexOf(c) >= 0
    ensures IndexOf(c) < BASE && SOURCE[IndexOf(c)] == c
  {
    var d := IndexOf(c);
    if d < 10 {
      assert SOURCE[d] == ('0' as int + d) as char;
    } else {
      assert SOURCE[d] == ('A' as int + d - 10) as char;
    }
  }

  /** A number cut down to a signed 32-bit one. */
  function Wrap32(x: int): int {
    var r := x % TWO32;
    if r < TWO31 then r else r - TWO32
  }

  lemma WrapAdds(a: int, b: int)
    ensures Wrap32(Wrap32(a) + Wrap32(b)) == Wrap32(a + b)
  {
    var j := Cut32(a);
    var k := Cut32(b);
    WrapShifts(a + b, j + k);
  }

  /** How often a number is cut down. */
  lemma Cut32(a: int) returns (k: int)
    ensures Wrap32(a) == a - TWO32 * k
  {
    k := a / TWO32 + if a % TWO32 < TWO31 then 0 else 1;
  }

  lemma WrapShifts(x: int, k: int)
    ensures Wrap32(x - TWO32 * k) == Wrap32(x)
  {
    var q, r := x / TWO32, x % TWO32;
    assert x - TWO32 * k == TWO32 * (q - k) + r;
    Remainder(q - k, r);
  }

  lemma Remainder(q: int, r: int)
    requires 0 <= r < TWO32
    ensures (TWO32 * q + r) % TWO32 == r
  {
    var x := TWO32 * q + r;
    assert TWO32 * (x / TWO32 - q) == r - x % TWO32;
  }

  ghost function CodeFor(id: nat): string {
    Text(DigitsOf(id))
  }

  ghost function IdFor(code: string): int {
    if Readable(code) then Wrap32(Value(Read(code))) else 0
  }

  /** Reading a code gives back the id it was made for, for every non-negative 32-bit id. */
  lemma RoundTrip(id: nat)
    requires id < TWO31
    ensures IdFor(CodeFor(id)) == id
  {
    var ds, code := DigitsOf(id), CodeFor(id);
    forall i | 0 <= i < |code|
      ensures IndexOf(code[i]) == ds[i]
    {
      SourceIndex(ds[i]);
    }
    assert Read(code) == ds;
    ValueOfDigits(id);
  }

  lemma CanonicalReturns(code: string)
    requires Readable(code) && Canonical(Read(code)) && Value(Read(code)) < TWO31
    ensures IdFor(code) == Value(Read(code)) >= 0 && CodeFor(IdFor(code)) == code
  {
    var ds := Read(code);
    DigitsOfValue(ds);
    hide Value, DigitsOf;
    forall i | 0 <= i < |code|
      ensures SOURCE[ds[i]] == code[i]
    {
      IndexSource(code[i]);
    }
    assert Text(ds) == code;
  }

  lemma ReturnsCanonical(code: string, id: nat)
    requires id < TWO31 && CodeFor(id) == code
    ensures Readable(code) && Read(code) == DigitsOf(id) && Canonical(Read(code)) && Value(Read(code)) == id
  {
    CanonicalDigits(id);
    ValueOfDigits(id);
    var ds := DigitsOf(id);
    hide Value, DigitsOf;
    forall i | 0 <= i < |code|
      ensures IndexOf(code[i]) == ds[i]
    {
      SourceIndex(ds[i]);
    }
    assert Read(code) == ds;
  }

  /** Exactly the codes without leading zeros that stand for a 32-bit id come back from the id they give. */
  lemma CodesOfIds(code: string)
    ensures (Readable(code) && 0 <= IdFor(code) && CodeFor(IdFor(code)) == code) <==>
      (Readable(code) && Canonical(Read(code)) && Value(Read(code)) < TWO31)
  {
    hide Canonical, CodeFor, Read, Value;
    if Readable(code) && Canonical(Read(code)) && Value(Read(code)) < TWO31 {
      CanonicalReturns(code);
    }
    if Readable(code) && 0 <= IdFor(code) && CodeFor(IdFor(code)) == code {
      ReturnsCanonical(code, IdFor(code));
    }
  }

  /** Below `Pow(k)`, the top digit of a number that is not zero lies among the last `k`. */
  ghost predicate Top(a: nat, t: int, n: nat) {
    1 <= t < BASE && t * Pow(n) <= a < (t + 1) * Pow(n)
  }

  lemma TopBelow(a: nat, t: int, n: nat, k: nat)
    requires Top(a, t, n) && a < Pow(k)
    ensures n < k && 0 <= a - t * Pow(n) < Pow(n)
  {
    if k <= n {
      PowGrows(k, n);
      Times(t, Pow(n));
    }
    Spread(t, Pow(n));
  }

  lemma Times(t: int, p: int)
    requires 1 <= t && 0 < p
    ensures p <= t * p
  {
  }

  lemma Spread(t: int, p: int)
    ensures (t + 1) * p == t * p + p
  {
  }

  /** One more division by the base. */
  lemma DivideOnce(a: nat, t: int, n: nat)
    requires BASE <= t && t * Pow(n) <= a < (t + 1) * Pow(n)
    ensures var q := t / BASE; 1 <= q && q * Pow(n + 1) <= a < (q + 1) * Pow(n + 1)
  {
    var q, r, p := t / BASE, t % BASE, Pow(n);
    assert t == BASE * q + r;
    assert Pow(n + 1) == BASE * p;
    assert q * (BASE * p) == (BASE * q) * p;
    assert (q + 1) * (BASE * p) == (BASE * q + BASE) * p;
    Monotone(BASE * q, t, p);
    Monotone(t + 1, BASE * q + BASE, p);
  }

  lemma Monotone(a: int, b: int, p: int)
    requires a <= b && 0 <= p
    ensures a * p <= b * p
  {
  }

  /** The digits `ds` stand for `id - a`; the last `k` places are clear, and enough for `a`. */
  ghost predicate Partly(ds: seq<int>, id: nat, a: nat, k: nat) {
    && k <= |ds| && Digits(ds) && a < Pow(k) && Value(ds) + a == id
    && (forall i | |ds| - k <= i < |ds| :: ds[i] == 0)
    && (k < |ds| ==> ds[0] > 0)
  }

  /** Writing the top digit of what is left. */
  lemma TopWritten(ds: seq<int>, id: nat, a: nat, k: nat, t: int, n: nat)
    requires Partly(ds, id, a, k) && Top(a, t, n)
    requires k < |ds| || k == n + 1
    ensures n < k && 0 <= a - t * Pow(n) && Partly(ds[|ds| - 1 - n := t], id, a - t * Pow(n), n)
  {
    TopBelow(a, t, n, k);
    var i := |ds| - 1 - n;
    ValueSet(ds, i, t);
    assert ds[i] == 0;
  }

  /** Nothing is written yet. */
  lemma Untouched(ds: seq<int>, id: nat, n: nat)
    requires |ds| == n + 1 && id < Pow(n + 1) && forall i | 0 <= i < |ds| :: ds[i] == 0
    ensures Partly(ds, id, id, n + 1)
  {
    ZeroValue(ds);
  }

  lemma OneDigit(ds: seq<int>, id: nat)
    requires ds == [id] && id < BASE
    ensures ds == DigitsOf(id)
  {
  }

  /** Taking the top digit away makes a number smaller. */
  lemma TopShrinks(a: nat, t: int, n: nat)
    requires Top(a, t, n)
    ensures a - t * Pow(n) < a
  {
    Times(t, Pow(n));
  }

  /** Writing the last digit completes the number. */
  lemma LastWritten(ds: seq<int>, id: nat, a: nat, k: nat)
    requires Partly(ds, id, a, k) && 1 <= k < |ds| && a < BASE
    ensures ds[|ds| - 1 := a] == DigitsOf(id)
  {
    var es := ds[|ds| - 1 := a];
    ValueSet(ds, |ds| - 1, a);
    assert Pow(0) == 1;
    DigitsOfValue(es);
  }

  class InviteCodeGenerator {
    const source: string := SOURCE
    var char2Index: map<char, int>
    const tmpIndex: array<int>
    var tmpLength: nat

    /** The scratch array is clear between calls. */
    ghost predicate Clear()
      reads this`tmpLength, tmpIndex
    {
      tmpIndex.Length == SCRATCH && tmpLength == 0 && forall i | 0 <= i < SCRATCH :: tmpIndex[i] == 0
    }

    ghost predicate Valid()
      reads this, tmpIndex
    {
      && Clear()
      && (forall c :: c in char2Index <==> IndexOf(c) >= 0)
      && (forall c | c in char2Index :: char2Index[c] == IndexOf(c))
    }

    constructor ()
      ensures Valid() && fresh(tmpIndex)
    {
      char2Index := map[];
      tmpIndex := new int[SCRATCH](_ => 0);
      tmpLength := 0;
      new;
      var i := 0;
      while i < |source|
        invariant 0 <= i <= |source| && Clear()
        invariant forall c :: c in char2Index <==> 0 <= IndexOf(c) < i
        invariant forall c | c in char2Index :: char2Index[c] == IndexOf(c)
      {
        SourceIndex(i);
        forall c | IndexOf(c) == i
          ensures c == source[i]
        {
          IndexSource(c);
        }
        char2Index := char2Index[source[i] := i];
        i := i + 1;
      }
      forall c | IndexOf(c) >= 0
        ensures IndexOf(c) < BASE
      {
        IndexSource(c);
      }
    }

    /** The power of a number, computed as a product. */
    static method PowerN(num: int, power: nat) returns (value: int)
      ensures value == PowerOf(num, power)
    {
      if power == 0 {
        return 1;
      }
      value := num;
      var i := 0;
      assert PowerOf(num, 1) == num * PowerOf(num, 0) == num;
      while i < power - 1
        invariant 0 <= i <= power - 1 && value == PowerOf(num, i + 1)
      {
        assert PowerOf(num, i + 2) == num * value == value * num;
        value := value * num;
        i := i + 1;
      }
    }

    /** The top digit of a number and how many digits follow it. */
    static method TopDigit(a: nat) returns (t: int, n: nat)
      ensures if a == 0 then t == 0 && n == 0 else Top(a, t, n)
      ensures t < BASE && (n == 0 ==> t == a) && (n > 0 ==> BASE <= a)
    {
      n := 0;
      t := a;
      assert Pow(0) == 1;
      while t >= BASE
        invariant 0 <= t && (a > 0 ==> 1 <= t) && t * Pow(n) <= a < (t + 1) * Pow(n)
        invariant (n == 0 ==> t == a) && (n > 0 ==> BASE <= a)
        decreases t
      {
        DivideOnce(a, t, n);
        t := t / BASE;
        n := n + 1;
      }
    }

    /** A 32-bit id has at most six digits. */
    static lemma Room(id: nat, t: int, n: nat)
      requires id < TWO31 && if id == 0 then t == 0 && n == 0 else Top(id, t, n)
      ensures n < 6 && id < Pow(n + 1)
    {
      SixDigits();
      if id == 0 {
        assert Pow(1) == BASE;
      } else {
        TopBelow(id, t, n, 6);
        assert Pow(n + 1) == BASE * Pow(n);
        Monotone(t + 1, BASE, Pow(n));
      }
    }

    /** The digits being written. */
    ghost function Written(): seq<int>
      requires tmpLength <= tmpIndex.Length
      reads this`tmpLength, tmpIndex
    {
      tmpIndex[..tmpLength]
    }

    /** Behind the digits the scratch array is clear. */
    ghost predicate TailClear()
      reads this`tmpLength, tmpIndex
    {
      tmpIndex.Length == SCRATCH && tmpLength <= 6 && forall i | tmpLength <= i < SCRATCH :: tmpIndex[i] == 0
    }

    method PutDigit(i: nat, d: int)
      requires TailClear() && i < tmpLength
      modifies tmpIndex
      ensures TailClear() && Written() == old(Written())[i := d]
    {
      tmpIndex[i] := d;
      assert Written() == old(Written())[i := d];
    }

    /** Stores the top digit of what is left and takes it away. */
    method PutTop(id: nat, a: nat, ghost k: nat, t: int, n: nat) returns (b: nat)
      requires TailClear() && Partly(Written(), id, a, k) && (k < tmpLength || k == n + 1)
      requires if n == 0 then tmpLength == 1 && t == a == id else Top(a, t, n)
      modifies tmpIndex
      ensures TailClear() && b <= a
      ensures n == 0 ==> b == a && Written() == [id]
      ensures n > 0 ==> b < a && n < k && Partly(Written(), id, b, n)
    {
      hide Partly, Top, Value, DigitsOf, Digits, Pow;
      if n == 0 {
        PutDigit(0, t);
        return a;
      }
      TopWritten(Written(), id, a, k, t, n);
      TopShrinks(a, t, n);
      InRange(Written(), id, a, k);
      PutDigit(tmpLength - 1 - n, t);
      var p := PowerN(BASE, n);
      PowIsPower(n);
      b := a - t * p;
    }

    static lemma InRange(ds: seq<int>, id: nat, a: nat, k: nat)
      requires Partly(ds, id, a, k)
      ensures k <= |ds|
    {
    }

    /** Writes the digits of an id into the scratch array. */
    method Fill(id: nat)
      requires Clear() && id < TWO31
      modifies this`tmpLength, tmpIndex
      ensures TailClear() && 1 <= tmpLength && Written() == DigitsOf(id)
    {
      hide Partly, Top, Value, DigitsOf, Digits, Pow;
      var a: nat := id;
      ghost var k: nat := 0;
      while true
        invariant TailClear() && a <= id
        invariant tmpLength == 0 ==> Clear() && a == id
        invariant tmpLength > 0 ==> 1 <= k < tmpLength && Partly(Written(), id, a, k) && BASE <= a
        decreases a
      {
        var t, n := TopDigit(a);
        if tmpLength == 0 {
          Room(id, t, n);
          tmpLength := n + 1;
          k := n + 1;
          Untouched(Written(), id, n);
        }
        InRange(Written(), id, a, k);
        a := PutTop(id, a, k, t, n);
        k := n;
        if a < BASE {
          ghost var ds := Written();
          PutDigit(tmpLength - 1, a);
          if n > 0 {
            LastWritten(ds, id, a, k);
          } else {
            OneDigit(Written(), id);
          }
          break;
        }
      }
    }

    /** The code of an id; the scratch array is clear again afterwards.  A negative id has no digits. */
    method Generate(id: int) returns (code: string)
      requires Valid() && 0 <= id < TWO31
      modifies this`tmpLength, tmpIndex
      ensures Valid() && code == CodeFor(id)
    {
      Fill(id);
      ghost var ds := DigitsOf(id);
      hide DigitsOf;
      code := [];
      var i := 0;
      while i < tmpLength
        invariant 0 <= i <= tmpLength && |code| == i
        invariant forall j | 0 <= j < i :: code[j] == SOURCE[ds[j]]
      {
        assert tmpIndex[i] == Written()[i] == ds[i];
        code := code + [source[tmpIndex[i]]];
        i := i + 1;
      }
      assert code == Text(ds);
      ClearScratch();
    }

    method ClearScratch()
      requires TailClear()
      modifies this`tmpLength, tmpIndex
      ensures Clear()
    {
      var i := 0;
      while i < tmpLength
        invariant 0 <= i <= tmpLength && TailClear()
        invariant forall j | 0 <= j < i :: tmpIndex[j] == 0
      {
        tmpIndex[i] := 0;
        i := i + 1;
      }
      tmpLength := 0;
    }

    /** The id of a code, with 32-bit arithmetic; 0 if a character is not a digit. */
    method GetId(code: string) returns (id: int)
      requires Valid()
      ensures id == IdFor(code)
    {
      id := 0;
      ghost var ds := Read(code);
      var i := 0;
      while i < |code|
        invariant 0 <= i <= |code|
        invariant forall j | 0 <= j < i :: IndexOf(code[j]) >= 0
        invariant id == Wrap32(Value(ds[..i]) * Pow(|code| - i))
      {
        if code[i] !in char2Index {
          return 0;
        }
        var idx := char2Index[code[i]];
        var p := PowerN(BASE, |code| - i - 1);
        PowIsPower(|code| - i - 1);
        OneMore(ds, i);
        WrapAdds(Value(ds[..i]) * Pow(|code| - i), idx * p);
        id := Wrap32(id + Wrap32(idx * p));
        i := i + 1;
      }
      assert ds[..i] == ds;
      assert Pow(0) == 1;
    }

    static lemma OneMore(ds: seq<int>, i: nat)
      requires i < |ds|
      ensures Value(ds[..i + 1]) * Pow(|ds| - i - 1) == Value(ds[..i]) * Pow(|ds| - i) + ds[i] * Pow(|ds| - i - 1)
    {
      assert ds[..i + 1][..i] == ds[..i];
      var v, p := Value(ds[..i]), Pow(|ds| - i - 1);
      assert (BASE * v + ds[i]) * p == v * (BASE * p) + ds[i] * p;
    }
  }
}
