/** Runtime values, their three-way comparison, and the order every index, sort
    and zone map of the engine relies on. */
module Values {

  datatype Option<+T> = None | Some(value: T)

  /** A row's place: its page and its slot there. */
  datatype RecordID = RecordID(page: int, slot: int)

  /** A text value is a string of bytes; a Dafny char below 256 stands for one byte. */
  datatype Value =
    | Null
    | Int(i: int)
    | Bool(b: bool)
    | Text(t: string)
    | Double(d: real)
  {
    predicate IsNumeric() {
      Int? || Double?
    }

    /** The number a numeric value stands for; Int and Double compare by it. */
    function AsReal(): real
      requires IsNumeric()
    {
      if Int? then i as real else d
    }
  }

  type Row = seq<Value>

  /** The enumeration order of the value types. */
  datatype Kind = KNull | KInt | KBool | KText | KDouble

  function KindOf(v: Value): Kind {
    match v
    case Null => KNull
    case Int(_) => KInt
    case Bool(_) => KBool
    case Text(_) => KText
    case Double(_) => KDouble
  }

  function Tag(v: Value): nat {
    match v
    case Null => 0
    case Int(_) => 1
    case Bool(_) => 2
    case Text(_) => 3
    case Double(_) => 4
  }

  /** Byte-wise comparison of two strings: negative, zero or positive. */
  function CompareText(s: string, t: string): int {
    if s == [] && t == [] then 0
    else if s == [] then -1
    else if t == [] then 1
    else if s[0] < t[0] then -1
    else if t[0] < s[0] then 1
    else CompareText(s[1..], t[1..])
  }

  function CompareReal(x: real, y: real): int {
    if x < y then -1 else if y < x then 1 else 0
  }

  function CompareInt(x: int, y: int): int {
    if x < y then -1 else if y < x then 1 else 0
  }

  /** Three-way comparison; None when either side is NULL or the types do not compare. */
  function CompareValues(a: Value, b: Value): Option<int> {
    if a.Null? || b.Null? then None
    else if a.IsNumeric() && b.IsNumeric() then
      if a.Int? && b.Int? then Some(CompareInt(a.i, b.i))
      else Some(CompareReal(a.AsReal(), b.AsReal()))
    else if a.Bool? && b.Bool? then
      Some((if a.b then 1 else 0) - (if b.b then 1 else 0))
    else if a.Text? && b.Text? then
      Some(CompareText(a.t, b.t))
    else None
  }

  /** The storage order: NULL first, then by number, then by type tag, then within a type. */
  predicate ValueLess(a: Value, b: Value) {
    if a.Null? || b.Null? then a.Null? && !b.Null?
    else if a.IsNumeric() && b.IsNumeric() then
      CompareValues(a, b).value < 0
    else if Tag(a) != Tag(b) then Tag(a) < Tag(b)
    else CompareValues(a, b).Some? && CompareValues(a, b).value < 0
  }

  /** The values one index column or join column may hold: NULLs and a single type. */
  predicate OfKind(k: Kind, v: Value) {
    v.Null? || KindOf(v) == k
  }

  // ----- CompareText is a strict total order on strings

  lemma {:induction false} CompareTextZero(s: string, t: string)
    ensures CompareText(s, t) == 0 <==> s == t
  {
    if s != [] && t != [] {
      CompareTextZero(s[1..], t[1..]);
      assert s == [s[0]] + s[1..] && t == [t[0]] + t[1..];
    }
  }

  lemma {:induction false} CompareTextSwap(s: string, t: string)
    ensures CompareText(t, s) == -CompareText(s, t)
  {
    if s != [] && t != [] {
      CompareTextSwap(s[1..], t[1..]);
    }
  }

  lemma {:induction false} CompareTextTransitive(s: string, t: string, u: string)
    requires CompareText(s, t) < 0 && CompareText(t, u) < 0
    ensures CompareText(s, u) < 0
  {
    if s != [] && t != [] && u != [] && s[0] == t[0] == u[0] {
      CompareTextTransitive(s[1..], t[1..], u[1..]);
    }
  }

  // ----- What the order is

  /** The texts agree up to place n, where the first one ends or has the smaller byte. */
  ghost predicate PrecedesAt(s: string, t: string, n: int) {
    0 <= n <= |s| && n < |t| && s[..n] == t[..n] && (n == |s| || s[n] < t[n])
  }

  /** Dictionary order: a proper prefix comes first, otherwise the first byte that differs decides. */
  lemma {:induction false} DictionaryOrder(s: string, t: string)
    ensures CompareText(s, t) < 0 <==> exists n :: PrecedesAt(s, t, n)
  {
    forall n | PrecedesAt(s, t, n) && n > 0 ensures s[0] == t[0] {
      assert s[0] == s[..n][0] && t[0] == t[..n][0];
    }
    if s == [] || t == [] || s[0] != t[0] {
      assert CompareText(s, t) < 0 ==> PrecedesAt(s, t, 0);
    } else {
      DictionaryOrder(s[1..], t[1..]);
      if CompareText(s, t) < 0 {
        var n :| PrecedesAt(s[1..], t[1..], n);
        assert s[..n + 1] == [s[0]] + s[1..][..n] && t[..n + 1] == [t[0]] + t[1..][..n];
        assert PrecedesAt(s, t, n + 1);
      }
      forall n | PrecedesAt(s, t, n) ensures CompareText(s, t) < 0 {
        assert n > 0;
        assert s[1..][..n - 1] == s[..n][1..] && t[1..][..n - 1] == t[..n][1..];
        assert PrecedesAt(s[1..], t[1..], n - 1);
      }
    }
  }

  /** The order of texts without reference to a comparison: s is a proper prefix of t, or they
      agree up to a place where s has the smaller byte. */
  lemma TextOrder(s: string, t: string)
    ensures ValueLess(Text(s), Text(t))
      <==> s < t || exists n :: 0 <= n < |s| && n < |t| && s[..n] == t[..n] && s[n] < t[n]
  {
    DictionaryOrder(s, t);
    if s < t {
      assert s[..|s|] == t[..|s|];
      assert PrecedesAt(s, t, |s|);
    }
    if n :| 0 <= n < |s| && n < |t| && s[..n] == t[..n] && s[n] < t[n] {
      assert PrecedesAt(s, t, n);
    }
    forall n | PrecedesAt(s, t, n) && n == |s| ensures s < t {
      assert s[..n] == s;
    }
  }

  /** The storage order of all other pairs: NULL before everything else, numbers by size whatever
      their types, FALSE before TRUE, and else by type: numbers next to booleans and texts. */
  lemma StorageOrder(a: Value, b: Value)
    ensures a.Null? ==> (ValueLess(a, b) <==> !b.Null?) && !ValueLess(b, a)
    ensures a.IsNumeric() && b.IsNumeric() ==> (ValueLess(a, b) <==> a.AsReal() < b.AsReal())
    ensures a.Bool? && b.Bool? ==> (ValueLess(a, b) <==> !a.b && b.b)
    ensures a.Int? && (b.Bool? || b.Text?) ==> ValueLess(a, b) && !ValueLess(b, a)
    ensures a.Bool? && b.Text? ==> ValueLess(a, b) && !ValueLess(b, a)
    ensures (a.Bool? || a.Text?) && b.Double? ==> ValueLess(a, b) && !ValueLess(b, a)
  {
  }

  /** Which values compare, and how a comparison relates to the storage order. */
  lemma ComparisonOrder(a: Value, b: Value)
    ensures CompareValues(a, b).Some? <==> (a.IsNumeric() && b.IsNumeric()) || (a.Bool? && b.Bool?) || (a.Text? && b.Text?)
    ensures CompareValues(a, b).Some? ==> (CompareValues(a, b).value < 0 <==> ValueLess(a, b))
    ensures CompareValues(a, b).Some? ==> (CompareValues(a, b).value > 0 <==> ValueLess(b, a))
    ensures CompareValues(a, b).Some? ==>
              (CompareValues(a, b).value == 0 <==> if a.IsNumeric() then a.AsReal() == b.AsReal() else a == b)
  {
    if a.Text? && b.Text? {
      CompareTextZero(a.t, b.t);
      CompareTextSwap(a.t, b.t);
    }
  }

  // ----- Within one kind the storage order is a strict total order

  /** Trichotomy: two values of one kind are equal exactly when neither precedes the other. */
  lemma ValueLessTotal(k: Kind, a: Value, b: Value)
    requires OfKind(k, a) && OfKind(k, b)
    ensures !(ValueLess(a, b) && ValueLess(b, a))
    ensures a == b <==> !ValueLess(a, b) && !ValueLess(b, a)
  {
    if a.Text? && b.Text? {
      CompareTextZero(a.t, b.t);
      CompareTextSwap(a.t, b.t);
    }
  }

  lemma ValueLessTransitive(k: Kind, a: Value, b: Value, c: Value)
    requires OfKind(k, a) && OfKind(k, b) && OfKind(k, c)
    requires ValueLess(a, b) && ValueLess(b, c)
    ensures ValueLess(a, c)
  {
    if a.Text? && b.Text? && c.Text? {
      CompareTextTransitive(a.t, b.t, c.t);
    }
  }

  // ----- Bounds of another numeric type

  /** The values a column may be compared with: those of its own type, and numbers with numbers. */
  predicate Comparable(k: Kind, v: Value) {
    OfKind(k, v) || ((k == KInt || k == KDouble) && v.IsNumeric())
  }

  /** Integers and floats compare transitively, by number. */
  lemma ComparableTransitive(k: Kind, a: Value, b: Value, c: Value)
    requires Comparable(k, a) && Comparable(k, b) && Comparable(k, c)
    requires ValueLess(a, b) && ValueLess(b, c)
    ensures ValueLess(a, c)
  {
    if a.Text? && b.Text? && c.Text? {
      CompareTextTransitive(a.t, b.t, c.t);
    }
  }

  // ----- Across kinds it is not even transitive

  /** Integers precede booleans and booleans precede floats by tag, but integers and floats
      compare by number. */
  lemma MixedKindsNotOrdered()
    ensures ValueLess(Int(2), Bool(true)) && ValueLess(Bool(true), Double(1.0)) && ValueLess(Double(1.0), Int(2))
  {
  }
}
