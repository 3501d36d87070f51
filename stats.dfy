/** The stats of stats.cpp: a meter (value out of a maximum, unsigned
    32-bit) that damage is consumed from and healing refunded into, an
    integer stat with a multiplier, and their text forms. */
module Stats {
  import opened Scripts

  function Digit(d: nat): (c: char)
    requires d < 10
    ensures '0' <= c <= '9' && (c - '0') as nat == d
  {
    "0123456789"[d]
  }

  predicate AllDigits(s: string) {
    forall i :: 0 <= i < |s| ==> '0' <= s[i] <= '9'
  }

  /** Decimal text of a natural number, as an ostream prints it. */
  function NatToString(n: nat): (s: string)
    ensures |s| >= 1 && AllDigits(s)
    ensures |s| > 1 ==> s[0] != '0'
  {
    if n < 10 then [Digit(n)] else NatToString(n / 10) + [Digit(n % 10)]
  }

  /** The value of a decimal text. */
  function ParseNat(s: string): nat
    requires AllDigits(s)
  {
    if |s| == 0 then 0 else ParseNat(s[..|s| - 1]) * 10 + (s[|s| - 1] - '0') as nat
  }

  /** Printing then reading a number gives it back. */
  lemma {:induction false} ParseNatToString(n: nat)
    ensures ParseNat(NatToString(n)) == n
  {
    if n >= 10 {
      var s := NatToString(n);
      assert s[..|s| - 1] == NatToString(n / 10);
      ParseNatToString(n / 10);
    }
  }

  function IntToString(i: int): (s: string)
    ensures i >= 0 ==> s == NatToString(i)
    ensures i < 0 ==> s == "-" + NatToString(-i)
  {
    if i < 0 then "-" + NatToString(-i) else NatToString(i)
  }

  /** int(x): truncation toward zero. */
  function Trunc(x: real): (r: int)
    ensures x >= 0.0 ==> r as real <= x < r as real + 1.0
    ensures x < 0.0 ==> r as real - 1.0 < x <= r as real
  {
    if x >= 0.0 then x.Floor else -((-x).Floor)
  }

  /** Stat::repr: name, ": ", the effect, and " (reason)" only when there is
      a reason. */
  function StatRepr(name: string, reason: string, effect: string): (r: string)
    ensures |r| >= |name| + 2 + |effect| && r[..|name| + 2 + |effect|] == name + ": " + effect
    ensures reason == [] ==> |r| == |name| + 2 + |effect|
    ensures reason != [] ==> r[|name| + 2 + |effect|..] == " (" + reason + ")"
  {
    name + ": " + effect + (if reason == [] then [] else " (" + reason + ")")
  }

  /** IntStat's effect: the multiplier as a whole percentage when non-zero,
      then the value when non-zero; an all-zero stat prints nothing. */
  function IntEffect(value: int, multiplier: real): (r: string)
    ensures value == 0 && multiplier == 0.0 ==> r == []
    ensures multiplier == 0.0 ==> r == (if value == 0 then [] else IntToString(value))
    ensures multiplier != 0.0 ==> |r| > |IntToString(Trunc(multiplier * 100.0))| && r[..|IntToString(Trunc(multiplier * 100.0))| + 1] == IntToString(Trunc(multiplier * 100.0)) + "%"
    ensures multiplier != 0.0 ==>
      r[|IntToString(Trunc(multiplier * 100.0))| + 1..] == (if value != 0 then IntToString(value) else [])
  {
    (if multiplier != 0.0 then IntToString(Trunc(multiplier * 100.0)) + "%" else [])
      + (if value != 0 then IntToString(value) else [])
  }

  /** MeterStat's effect: "value/max". */
  function MeterEffect(value: nat, max: nat): (r: string)
    ensures |r| > |NatToString(value)| && r[..|NatToString(value)|] == NatToString(value)
    ensures r[|NatToString(value)|] == '/'
    ensures r[|NatToString(value)| + 1..] == NatToString(max)
  {
    NatToString(value) + "/" + NatToString(max)
  }

  /** consume(amount): take what the meter holds, up to amount; the amount
      left is what could not be taken. */
  function ConsumeOf(value: Word, amount: Word): (r: (Word, Word))
    ensures r.0 <= value && r.1 <= amount
    ensures value - r.0 == amount - r.1
    ensures r.1 == 0 || r.0 == 0
  {
    if amount > value then (0, amount - value) else (value - amount, 0)
  }

  /** refund(amount): fill towards max, up to amount. `max - value` is an
      unsigned subtraction, so a meter over its max wraps around. */
  function RefundOf(value: Word, max: Word, amount: Word): (r: (Word, Word))
    ensures value <= max ==> r.0 - value == amount - r.1 && value <= r.0 <= max && r.1 <= amount
    ensures value <= max ==> r.1 == 0 || r.0 == max
  {
    var toFill := (max - value) % U32;
    if toFill < amount then (max, amount - toFill) else ((value + amount) % U32, 0)
  }

  /** A meter above its max is not capped by refund: the wrapped room lets
      the whole amount in. */
  lemma RefundOverMaxExample()
    ensures RefundOf(7, 5, 4) == (11, 0)
  {
    assert (5 - 7) % U32 == U32 - 2;
  }

  /** Consuming what was just refunded gives the meter back, when the
      refund fit. */
  lemma ConsumeUndoesRefund(value: Word, max: Word, amount: Word)
    requires value <= max && amount <= max - value
    ensures ConsumeOf(RefundOf(value, max, amount).0, amount) == (value, 0)
  {
  }

  class MeterStat {
    const name: string
    const reason: string
    var value: Word
    var max: Word

    constructor (name: string, reason: string, value: Word, max: Word)
      ensures this.name == name && this.reason == reason && this.value == value && this.max == max
    {
      this.name := name;
      this.reason := reason;
      this.value := value;
      this.max := max;
    }

    /** merge adds value and max, each wrapping at 2^32. */
    method Merge(other: MeterStat)
      modifies this
      ensures value == (old(value) + old(other.value)) % U32
      ensures max == (old(max) + old(other.max)) % U32
    {
      value := (value + other.value) % U32;
      max := (max + other.max) % U32;
    }

    method Consume(amount: Word) returns (amount': Word)
      modifies this
      ensures (value, amount') == ConsumeOf(old(value), amount) && max == old(max)
    {
      amount' := amount;
      if amount' > value {
        amount' := amount' - value;
        value := 0;
      } else {
        value := value - amount';
        amount' := 0;
      }
    }

    method Refund(amount: Word) returns (amount': Word)
      modifies this
      ensures (value, amount') == RefundOf(old(value), old(max), amount) && max == old(max)
    {
      amount' := amount;
      var toFill := (max - value) % U32;
      if toFill < amount' {
        value := max;
        amount' := amount' - toFill;
      } else {
        value := (value + amount') % U32;
        amount' := 0;
      }
    }

    function Repr(): (r: string)
      reads this
      ensures |r| >= |name| + 2 && r[..|name| + 2] == name + ": "
      ensures reason != [] ==> |r| >= |reason| + 3 && r[|r| - |reason| - 3..] == " (" + reason + ")"
    {
      StatRepr(name, reason, MeterEffect(value, max))
    }
  }

  class IntStat {
    const name: string
    const reason: string
    var value: int
    var multiplier: real

    constructor (name: string, reason: string, value: int, multiplier: real)
      ensures this.name == name && this.reason == reason && this.value == value && this.multiplier == multiplier
    {
      this.name := name;
      this.reason := reason;
      this.value := value;
      this.multiplier := multiplier;
    }

    method Merge(other: IntStat)
      modifies this
      ensures value == old(value) + old(other.value)
      ensures multiplier == old(multiplier) + old(other.multiplier)
    {
      value := value + other.value;
      multiplier := multiplier + other.multiplier;
    }

    function Repr(): (r: string)
      reads this
      ensures |r| >= |name| + 2 && r[..|name| + 2] == name + ": "
      ensures reason != [] ==> |r| >= |reason| + 3 && r[|r| - |reason| - 3..] == " (" + reason + ")"
    {
      StatRepr(name, reason, IntEffect(value, multiplier))
    }
  }

  /** The expected texts of the IntStat tests in test/stats_test.cpp: a
      plain value, with and without a reason. */
  lemma IntStatTestVectors()
    ensures StatRepr("foo", "bar", IntEffect(1, 0.0)) == "foo: 1 (bar)"
    ensures StatRepr("foo", "", IntEffect(1, 0.0)) == "foo: 1"
  {
    assert IntEffect(1, 0.0) == "1";
  }

  /** The expected text of the IntStat test with a multiplier. */
  lemma IntStatPercentVector()
    ensures StatRepr("foo", "bar", IntEffect(0, 0.5)) == "foo: 50% (bar)"
  {
    assert Trunc(0.5 * 100.0) == 50;
    assert NatToString(5) == "5";
    assert NatToString(50) == NatToString(5) + "0";
    assert IntEffect(0, 0.5) == "50%";
  }

  /** The expected texts and amounts of the MeterStat tests in
      test/stats_test.cpp. */
  lemma MeterStatTestVectors()
    ensures StatRepr("hp", "", MeterEffect(5, 5)) == "hp: 5/5"
    ensures StatRepr("hp", "", MeterEffect(10, 10)) == "hp: 10/10"
    ensures ConsumeOf(5, 4) == (1, 0) && StatRepr("hp", "", MeterEffect(1, 5)) == "hp: 1/5"
    ensures ConsumeOf(5, 10) == (0, 5)
    ensures RefundOf(0, 5, 4) == (4, 0) && StatRepr("hp", "", MeterEffect(4, 5)) == "hp: 4/5"
    ensures RefundOf(0, 5, 10) == (5, 5)
  {
    assert NatToString(1) == "1";
    assert NatToString(10) == NatToString(1) + "0";
    assert MeterEffect(10, 10) == "10/10";
  }
}
