/** The Ruby values the model needs: the option values a caller puts in the
    server's config hash, the receivers of the `Object` refinements, and the
    keys and values of `symbolize_keys`. Ruby's `to_s` and `inspect` are
    given for them, since the config file and the connection URL are built by
    string interpolation. */
module RubyValue {
  import opened Wrappers
  import opened RubyHash

  datatype Value =
    | Nil
    | Bool(b: bool)
    | Int(i: int)
    | Str(s: string)
    | Sym(name: string)
    | Arr(elems: seq<Value>)
    | Hash(entries: Entries<Value, Value>)

  const Digits: string := "0123456789"

  /** Decimal rendering of a natural number (`Integer#to_s`). */
  function NatToS(n: nat): (s: string)
    ensures s != []
    ensures forall c :: c in s ==> c in Digits
  {
    if n < 10 then [Digits[n]] else NatToS(n / 10) + [Digits[n % 10]]
  }

  /** `Integer#to_s`: a minus sign for negative numbers, then the digits. */
  function IntToS(i: int): (s: string)
    ensures s != []
    ensures forall c :: c in s[1..] ==> c in Digits
    ensures s[0] == '-' || s[0] in Digits
  {
    if i < 0 then "-" + NatToS(-i) else NatToS(i)
  }

  /** The value of one decimal digit. */
  function DigitValue(c: char): int
  {
    c as int - '0' as int
  }

  /** The number a string of decimal digits denotes, most significant first. */
  function DigitsValue(s: string): int
  {
    if s == [] then 0 else 10 * DigitsValue(s[..|s| - 1]) + DigitValue(s[|s| - 1])
  }

  /** The number a rendering of `Integer#to_s` denotes. */
  function SignedValue(s: string): int
  {
    if s != [] && s[0] == '-' then -DigitsValue(s[1..]) else DigitsValue(s)
  }

  lemma DigitAt(d: nat)
    requires d < 10
    ensures DigitValue(Digits[d]) == d
  {
  }

  /** `NatToS` is the decimal representation of `n`: its digits denote `n`,
      and it starts with a zero only when it is "0". */
  lemma {:induction false} NatToSValue(n: nat)
    ensures DigitsValue(NatToS(n)) == n
    ensures NatToS(n)[0] == '0' <==> n == 0
    ensures n == 0 ==> NatToS(n) == "0"
  {
    if n < 10 {
      DigitAt(n);
    } else {
      NatToSValue(n / 10);
      DigitAt(n % 10);
      var s := NatToS(n);
      assert s[..|s| - 1] == NatToS(n / 10);
    }
  }

  /** `IntToS` is `Integer#to_s`: it denotes `i`, has a minus sign exactly
      for negative numbers, at least one digit, and no leading zero. */
  lemma {:induction false} IntToSValue(i: int)
    ensures SignedValue(IntToS(i)) == i
    ensures IntToS(i)[0] == '-' <==> i < 0
    ensures i < 0 ==> |IntToS(i)| >= 2 && IntToS(i)[1] != '0'
    ensures i > 0 ==> IntToS(i)[0] != '0'
    ensures i == 0 ==> IntToS(i) == "0"
  {
    var t := NatToS(if i < 0 then -i else i);
    NatToSValue(if i < 0 then -i else i);
    assert t[0] in Digits;
    if i < 0 {
      var s := "-" + t;
      assert IntToS(i) == s;
      assert s[1..] == t;
      assert SignedValue(s) == -DigitsValue(t);
    } else {
      assert IntToS(i) == t;
      assert t[0] != '-';
      assert SignedValue(t) == DigitsValue(t);
    }
  }

  /** `inspect`, in the format of Ruby before 3.4 (`{:a=>1}`). */
  function Inspect(v: Value): string
    decreases v, 1
  {
    match v
    case Nil => "nil"
    case Bool(b) => if b then "true" else "false"
    case Int(i) => IntToS(i)
    case Str(s) => "\"" + s + "\""
    case Sym(name) => ":" + name
    case Arr(elems) => "[" + InspectList(elems) + "]"
    case Hash(entries) => "{" + InspectEntries(entries) + "}"
  }

  function InspectList(vs: seq<Value>): string
    decreases vs, 0
  {
    if vs == [] then ""
    else if |vs| == 1 then Inspect(vs[0])
    else Inspect(vs[0]) + ", " + InspectList(vs[1..])
  }

  function InspectEntries(es: Entries<Value, Value>): string
    decreases es, 0
  {
    if es == [] then ""
    else
      var line := InspectEntry(es[0]);
      if |es| == 1 then line else line + ", " + InspectEntries(es[1..])
  }

  function InspectEntry(e: (Value, Value)): string
    decreases e, 0
  {
    Inspect(e.0) + "=>" + Inspect(e.1)
  }

  /** `to_s`, the text that string interpolation inserts. */
  function ToS(v: Value): string
    decreases v, 2
  {
    match v
    case Nil => ""
    case Bool(b) => if b then "true" else "false"
    case Int(i) => IntToS(i)
    case Str(s) => s
    case Sym(name) => name
    case Arr(_) => Inspect(v)
    case Hash(_) => Inspect(v)
  }

  /** The values whose `to_s` is empty: nil, the empty string and the empty symbol. */
  lemma ToSEmpty(v: Value)
    ensures ToS(v) == "" <==> v == Nil || v == Str("") || v == Sym("")
  {
    if v.Int? {
      assert IntToS(v.i) != "";
    }
  }

  /** Only a string or a symbol spelled `w` renders as `w`, when `w` is a word. */
  lemma ToSWord(v: Value, w: string)
    requires w != "" && forall c :: c in w ==> 'a' <= c <= 'z'
    requires w != "true" && w != "false"
    ensures ToS(v) == w <==> v == Str(w) || v == Sym(w)
  {
    assert w[0] in w;
    match v
    case Int(i) =>
      var s := IntToS(i);
      assert s[0] == '-' || s[0] in Digits;
    case Arr(_) =>
      assert ToS(v)[0] == '[';
    case Hash(_) =>
      assert ToS(v)[0] == '{';
    case _ =>
  }

  /** `h[k]` on a Ruby hash: the value stored under `k`, or nil when `k` is missing. */
  function At(h: Entries<Value, Value>, k: Value): (r: Value)
    ensures k !in Keys(h) ==> r == Nil
    ensures k in Keys(h) ==> Lookup(h, k) == Some(r)
  {
    match Lookup(h, k)
    case Some(v) => v
    case None => Nil
  }

  /** A Ruby hash object: several holders of a reference see the same, mutable entries. */
  class HashRef {
    var entries: Entries<Value, Value>

    constructor (entries: Entries<Value, Value>)
      ensures this.entries == entries
    {
      this.entries := entries;
    }
  }
}
