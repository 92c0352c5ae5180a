/** The refinements the library adds to `Object` (`blank?`, `present?`,
    `presence`) and to `Hash` (`symbolize_keys`), as functions on Ruby values. */
module Refinements {
  import opened Wrappers
  import opened RubyHash
  import opened RubyValue

  /** The values that respond to `empty?`: strings, symbols, arrays and hashes. */
  predicate RespondsToEmpty(v: Value)
  {
    v.Str? || v.Sym? || v.Arr? || v.Hash?
  }

  /** `empty?` */
  predicate IsEmpty(v: Value)
    requires RespondsToEmpty(v)
  {
    match v
    case Str(s) => s == ""
    case Sym(name) => name == ""
    case Arr(elems) => elems == []
    case Hash(entries) => entries == []
  }

  /** Ruby truthiness: every value except nil and false. */
  predicate Truthy(v: Value)
  {
    v != Nil && v != Bool(false)
  }

  /** `blank?`: `empty?` where the value responds to it, falsiness otherwise. */
  predicate Blank(v: Value)
  {
    if RespondsToEmpty(v) then IsEmpty(v) else !Truthy(v)
  }

  /** `present?` */
  predicate Present(v: Value)
  {
    !Blank(v)
  }

  /** `presence`: the receiver when it is present, nil otherwise. */
  function Presence(v: Value): (r: Value)
    ensures Present(v) ==> r == v
    ensures !Present(v) ==> r == Nil
    ensures r == Nil || Present(r)
  {
    if Present(v) then v else Nil
  }

  /** The blank values, listed: nil, false and the four empty containers. */
  lemma BlankValues(v: Value)
    ensures Blank(v) <==> v in {Nil, Bool(false), Str(""), Sym(""), Arr([]), Hash([])}
  {
  }

  /** `present?` is the negation of `blank?` on every value; in particular 0 and
      true are present, and so is every non-empty string, symbol, array or hash. */
  lemma PresentValues(v: Value)
    ensures Present(v) <==> !Blank(v)
    ensures v.Int? || v == Bool(true) ==> Present(v)
    ensures RespondsToEmpty(v) ==> (Present(v) <==> !IsEmpty(v))
  {
  }

  /** `presence` never answers with a blank value other than nil, and answers
      with the receiver exactly when the receiver is present. */
  lemma PresenceNeverBlank(v: Value)
    ensures Blank(Presence(v)) ==> Presence(v) == Nil
    ensures Presence(v) == v <==> Present(v) || v == Nil
  {
  }

  /** `NoMethodError` raised by `to_sym` on a key that is neither a string nor a symbol. */
  datatype SymbolizeError = NoToSym(key: Value)

  /** `to_sym`: defined on strings and symbols only. */
  function ToSym(k: Value): (r: Option<Value>)
    ensures r.Some? <==> k.Str? || k.Sym?
    ensures r.Some? ==> r.value.Sym?
  {
    match k
    case Str(s) => Some(Sym(s))
    case Sym(name) => Some(Sym(name))
    case _ => None
  }

  /** `symbolize_keys`: a fold over the receiver's keys in order that stores
      `fetch(key)` under `key.to_sym` in a fresh hash. The receiver is a value
      here, so it cannot be changed. */
  function SymbolizeKeys(h: Entries<Value, Value>): (r: Result<Entries<Value, Value>, SymbolizeError>)
    decreases |h|
  {
    if h == [] then Success([])
    else
      var (key, value) := h[|h| - 1];
      match SymbolizeKeys(h[..|h| - 1])
      case Failure(e) => Failure(e)
      case Success(memo) =>
        match ToSym(key)
        case None => Failure(NoToSym(key))
        case Some(sym) => Success(Store(memo, sym, value))
  }

  /** The index of the first key without `to_sym`, if any. */
  ghost predicate FirstUnsymbolizable(h: Entries<Value, Value>, i: nat)
  {
    i < |h| && ToSym(h[i].0).None? && forall j :: 0 <= j < i ==> ToSym(h[j].0).Some?
  }

  /** `symbolize_keys` fails exactly when some key has no `to_sym`, and the
      error names the first such key in iteration order. */
  lemma {:induction false} SymbolizeKeysFails(h: Entries<Value, Value>)
    ensures SymbolizeKeys(h).Failure? <==> exists i :: 0 <= i < |h| && ToSym(h[i].0).None?
    ensures forall i: nat :: FirstUnsymbolizable(h, i) ==> SymbolizeKeys(h) == Failure(NoToSym(h[i].0))
    decreases |h|
  {
    if h != [] {
      var init := h[..|h| - 1];
      SymbolizeKeysFails(init);
      assert forall i :: 0 <= i < |init| ==> init[i] == h[i];
      forall i: nat | FirstUnsymbolizable(h, i) ensures SymbolizeKeys(h) == Failure(NoToSym(h[i].0)) {
        if i < |init| {
          assert FirstUnsymbolizable(init, i);
        }
      }
    }
  }

  /** The entry at `i` is the last one whose key symbolizes to its symbol. */
  ghost predicate LastOfItsSymbol(h: Entries<Value, Value>, i: nat)
  {
    i < |h| && forall j :: i < j < |h| ==> ToSym(h[j].0) != ToSym(h[i].0)
  }

  ghost predicate AllSymbolizable(h: Entries<Value, Value>)
  {
    forall i :: 0 <= i < |h| ==> ToSym(h[i].0).Some?
  }

  /** One step of the fold, on a receiver whose keys all have `to_sym`. */
  lemma SymbolizeKeysStep(h: Entries<Value, Value>)
    requires h != [] && AllSymbolizable(h)
    ensures AllSymbolizable(h[..|h| - 1])
    ensures SymbolizeKeys(h[..|h| - 1]).Success?
    ensures SymbolizeKeys(h) ==
              Success(Store(SymbolizeKeys(h[..|h| - 1]).value, ToSym(h[|h| - 1].0).value, h[|h| - 1].1))
  {
    var init := h[..|h| - 1];
    assert forall i :: 0 <= i < |init| ==> init[i] == h[i];
    SymbolizeKeysFails(init);
  }

  /** On a hash whose keys are all strings or symbols, `symbolize_keys`
      succeeds and yields a hash (no key twice). */
  lemma {:induction false} SymbolizeKeysUnique(h: Entries<Value, Value>)
    requires AllSymbolizable(h)
    ensures SymbolizeKeys(h).Success?
    ensures UniqueKeys(SymbolizeKeys(h).value)
    decreases |h|
  {
    if h != [] {
      SymbolizeKeysStep(h);
      SymbolizeKeysUnique(h[..|h| - 1]);
      StoreUnique(SymbolizeKeys(h[..|h| - 1]).value, ToSym(h[|h| - 1].0).value, h[|h| - 1].1);
    }
  }

  /** Some key of the receiver symbolizes to `k`. */
  ghost predicate SymbolOfSomeKey(h: Entries<Value, Value>, k: Value)
  {
    exists i :: 0 <= i < |h| && ToSym(h[i].0) == Some(k)
  }

  /** The keys of the result are exactly the symbols of the receiver's keys. */
  lemma {:induction false} SymbolizeKeysKeySet(h: Entries<Value, Value>, k: Value)
    requires AllSymbolizable(h)
    ensures SymbolizeKeys(h).Success?
    ensures k in Keys(SymbolizeKeys(h).value) <==> SymbolOfSomeKey(h, k)
    decreases |h|
  {
    SymbolizeKeysFails(h);
    if h != [] {
      var init := h[..|h| - 1];
      SymbolizeKeysStep(h);
      SymbolizeKeysKeySet(init, k);
      var memo := SymbolizeKeys(init).value;
      var sym := ToSym(h[|h| - 1].0).value;
      StoreKeys(memo, sym, h[|h| - 1].1);
      assert k in Keys(SymbolizeKeys(h).value) <==> k in Keys(memo) || k == sym;
      SymbolOfSomeKeySplit(h, k);
    }
  }

  lemma SymbolOfSomeKeySplit(h: Entries<Value, Value>, k: Value)
    requires h != []
    ensures SymbolOfSomeKey(h, k) <==> SymbolOfSomeKey(h[..|h| - 1], k) || ToSym(h[|h| - 1].0) == Some(k)
  {
    var init := h[..|h| - 1];
    if SymbolOfSomeKey(init, k) {
      var i :| 0 <= i < |init| && ToSym(init[i].0) == Some(k);
      assert h[i] == init[i];
    }
    if SymbolOfSomeKey(h, k) {
      var i :| 0 <= i < |h| && ToSym(h[i].0) == Some(k);
      if i < |init| {
        assert init[i] == h[i];
      }
    }
  }

  /** Each symbol holds the value of the last key, in iteration order, that
      symbolizes to it: of `"a"` and `:a`, the later one wins. */
  lemma {:induction false} SymbolizeKeysLastWins(h: Entries<Value, Value>, i: nat)
    requires AllSymbolizable(h)
    requires LastOfItsSymbol(h, i)
    ensures SymbolizeKeys(h).Success?
    ensures Lookup(SymbolizeKeys(h).value, ToSym(h[i].0).value) == Some(h[i].1)
    decreases |h|
  {
    var init := h[..|h| - 1];
    SymbolizeKeysStep(h);
    if i < |init| {
      assert init[i] == h[i];
      assert LastOfItsSymbol(init, i) by {
        forall j | i < j < |init| ensures ToSym(init[j].0) != ToSym(init[i].0) {
          assert init[j] == h[j];
        }
      }
      SymbolizeKeysLastWins(init, i);
      assert ToSym(h[|h| - 1].0) != ToSym(h[i].0);
    }
  }
}
