/** Column values, keys and their order (src/row/row.h, src/btree/key.h). */
module Keys {
  type Byte = x: int | 0 <= x < 0x100
  type Int32 = x: int | -0x8000_0000 <= x < 0x8000_0000

  /** The bit pattern of a `float` that is neither a NaN nor the negative zero.  On these patterns `==`
      of floats is equality of patterns, and `<` is the order of the signed magnitudes. */
  type FloatBits = x: int | 0 <= x <= 0x7F80_0000 || 0x8000_0000 < x <= 0xFF80_0000

  /** A value is the source's `std::variant<monostate, int32_t, float, bool, std::string>` and a key is a tuple
      of values.  The order is the one `std::variant` and `std::vector` define: values of different
      alternatives compare by alternative number, tuples compare lexicographically. */
  datatype Value =
    | Null
    | Int(i: Int32)
    | Float(bits: FloatBits)
    | Bool(b: bool)
    | Varchar(s: seq<Byte>)

  type Key = seq<Value>

  function FloatRank(bits: FloatBits): int {
    if bits < 0x8000_0000 then bits else 0x8000_0000 - bits
  }

  /** The position of the alternative in the variant. */
  function Alternative(v: Value): int {
    match v
    case Null => 0
    case Int(_) => 1
    case Float(_) => 2
    case Bool(_) => 3
    case Varchar(_) => 4
  }

  predicate StringLt(a: seq<Byte>, b: seq<Byte>) {
    b != [] && (a == [] || a[0] < b[0] || (a[0] == b[0] && StringLt(a[1..], b[1..])))
  }

  predicate ValueLt(v: Value, w: Value) {
    if Alternative(v) != Alternative(w) then
      Alternative(v) < Alternative(w)
    else
      match v
      case Null => false
      case Int(i) => i < w.i
      case Float(f) => FloatRank(f) < FloatRank(w.bits)
      case Bool(b) => !b && w.b
      case Varchar(s) => StringLt(s, w.s)
  }

  predicate Lt(a: Key, b: Key) {
    b != [] && (a == [] || ValueLt(a[0], b[0]) || (a[0] == b[0] && Lt(a[1..], b[1..])))
  }

  /** `key_has_prefix` (src/btree/btree.cpp). */
  predicate HasPrefix(key: Key, prefix: Key) {
    prefix <= key
  }

  // ------------------------------------------------------------ the order is a strict total order

  lemma {:induction false} StringOrder(a: seq<Byte>, b: seq<Byte>, c: seq<Byte>)
    ensures !StringLt(a, a)
    ensures StringLt(a, b) || a == b || StringLt(b, a)
    ensures StringLt(a, b) && StringLt(b, c) ==> StringLt(a, c)
  {
    if a != [] && b != [] {
      StringOrder(a[1..], b[1..], if c == [] then [] else c[1..]);
      if a[0] == b[0] && a[1..] == b[1..] {
        assert a == [a[0]] + a[1..] == b;
      }
    } else if a != [] {
      StringOrder(a[1..], [], []);
    }
  }

  lemma ValueOrder(v: Value, w: Value, x: Value)
    ensures !ValueLt(v, v)
    ensures ValueLt(v, w) || v == w || ValueLt(w, v)
    ensures ValueLt(v, w) && ValueLt(w, x) ==> ValueLt(v, x)
  {
    if v.Varchar? {
      StringOrder(v.s, if w.Varchar? then w.s else [], if x.Varchar? then x.s else []);
    }
  }

  lemma {:induction false} KeyOrder(a: Key, b: Key, c: Key)
    ensures !Lt(a, a)
    ensures Lt(a, b) || a == b || Lt(b, a)
    ensures Lt(a, b) && Lt(b, c) ==> Lt(a, c)
  {
    if a != [] && b != [] {
      KeyOrder(a[1..], b[1..], if c == [] then [] else c[1..]);
      ValueOrder(a[0], b[0], if c == [] then Null else c[0]);
      if a[0] == b[0] && a[1..] == b[1..] {
        assert a == [a[0]] + a[1..] == b;
      }
    } else if a != [] {
      KeyOrder(a[1..], [], []);
      ValueOrder(a[0], Null, Null);
    }
  }

  /** The same laws, for the verifier to instantiate. */
  lemma OrderLaws()
    ensures forall a: Key, b: Key :: Lt(a, b) ==> !Lt(b, a) && a != b
    ensures forall a: Key, b: Key :: Lt(a, b) || a == b || Lt(b, a)
    ensures forall a: Key, b: Key, c: Key {:trigger Lt(a, b), Lt(b, c)} :: Lt(a, b) && Lt(b, c) ==> Lt(a, c)
  {
    forall a: Key, b: Key ensures (Lt(a, b) ==> !Lt(b, a) && a != b) && (Lt(a, b) || a == b || Lt(b, a)) {
      KeyOrder(a, b, a);
    }
    forall a: Key, b: Key, c: Key ensures Lt(a, b) && Lt(b, c) ==> Lt(a, c) {
      KeyOrder(a, b, c);
    }
  }

  lemma LtDistinct()
    ensures forall a: Key, b: Key :: Lt(a, b) ==> a != b
  {
    OrderLaws();
  }
}
