/** Comparing values: the order behind ORDER BY and UNIQUE, and the operators of WHERE.

    Numbers are compared as reals, so rounding and NaN are not modelled; the number behind the
    bits of a float, the printed form of a vector and LIKE are parameters. */
module Values {
  import opened Results
  import opened Bytes
  import opened Rows

  datatype Ordering = Less | Equal | Greater

  datatype Library = Library(
    number: U64 -> real,
    show: seq<U32> -> seq<byte>,
    like: (seq<byte>, seq<byte>) -> Result<bool>)

  function Flipped(o: Ordering): Ordering {
    match o
    case Less => Greater
    case Equal => Equal
    case Greater => Less
  }

  function CompareInts(a: int, b: int): Ordering {
    if a < b then Less else if a == b then Equal else Greater
  }

  function CompareReals(a: real, b: real): Ordering {
    if a < b then Less else if a == b then Equal else Greater
  }

  /** Byte strings in lexicographic order. */
  function CompareBytes(a: seq<byte>, b: seq<byte>): Ordering {
    if a == [] && b == [] then Equal
    else if a == [] then Less
    else if b == [] then Greater
    else if a[0] == b[0] then CompareBytes(a[1..], b[1..])
    else CompareInts(a[0], b[0])
  }

  predicate Numeric(v: Value) {
    v.Integer? || v.Float? || v.Real?
  }

  function NumberOf(lib: Library, v: Value): real
    requires Numeric(v)
  {
    if v.Integer? then v.i as real else lib.number(v.bits)
  }

  /** The first letter of a value's printed form, which differs from kind to kind. */
  function Initial(v: Value): nat {
    match v
    case Blob(_) => 66
    case Float(_) => 70
    case Integer(_) => 73
    case Null => 78
    case Real(_) => 82
    case Text(_) => 84
    case Vector(_) => 86
  }

  /** NULL comes last, numbers compare by value, and values of different kinds by how they print. */
  function Compare(lib: Library, a: Value, b: Value): Ordering {
    if a.Null? && b.Null? then Equal
    else if a.Null? then Greater
    else if b.Null? then Less
    else if a.Integer? && b.Integer? then CompareInts(a.i, b.i)
    else if a.Text? && b.Text? then CompareBytes(a.utf8, b.utf8)
    else if a.Blob? && b.Blob? then CompareBytes(a.bytes, b.bytes)
    else if Numeric(a) && Numeric(b) then CompareReals(NumberOf(lib, a), NumberOf(lib, b))
    else if a.Vector? && b.Vector? then CompareBytes(lib.show(a.parts), lib.show(b.parts))
    else CompareInts(Initial(a), Initial(b))
  }

  // ---------------------------------------------------------------- a total preorder

  lemma {:induction false} BytesFlip(a: seq<byte>, b: seq<byte>)
    ensures CompareBytes(b, a) == Flipped(CompareBytes(a, b))
    decreases |a|
  {
    if a != [] && b != [] {
      BytesFlip(a[1..], b[1..]);
    }
  }

  lemma {:induction false} BytesChain(a: seq<byte>, b: seq<byte>, c: seq<byte>)
    requires CompareBytes(a, b) != Greater && CompareBytes(b, c) != Greater
    ensures CompareBytes(a, c) != Greater
    ensures CompareBytes(a, c) == Equal ==> CompareBytes(a, b) == Equal && CompareBytes(b, c) == Equal
    decreases |a|
  {
    if a != [] && b != [] && c != [] && a[0] == b[0] == c[0] {
      BytesChain(a[1..], b[1..], c[1..]);
    }
  }

  lemma {:induction false} CompareFlip(lib: Library, a: Value, b: Value)
    ensures Compare(lib, b, a) == Flipped(Compare(lib, a, b))
  {
    if a.Text? && b.Text? {
      BytesFlip(a.utf8, b.utf8);
    } else if a.Blob? && b.Blob? {
      BytesFlip(a.bytes, b.bytes);
    } else if a.Vector? && b.Vector? {
      BytesFlip(lib.show(a.parts), lib.show(b.parts));
    }
  }

  /** `<=` is transitive, and a chain that returns to an equal value never left it: with
      `CompareFlip`, a total preorder on all values, kinds mixed freely. */
  lemma {:induction false} CompareChain(lib: Library, a: Value, b: Value, c: Value)
    requires Compare(lib, a, b) != Greater && Compare(lib, b, c) != Greater
    ensures Compare(lib, a, c) != Greater
    ensures Compare(lib, a, c) == Equal ==> Compare(lib, a, b) == Equal && Compare(lib, b, c) == Equal
  {
    if a.Text? && b.Text? && c.Text? {
      BytesChain(a.utf8, b.utf8, c.utf8);
    } else if a.Blob? && b.Blob? && c.Blob? {
      BytesChain(a.bytes, b.bytes, c.bytes);
    } else if a.Vector? && b.Vector? && c.Vector? {
      BytesChain(lib.show(a.parts), lib.show(b.parts), lib.show(c.parts));
    }
  }

  // ---------------------------------------------------------------- operators

  datatype Operator = EqualTo | NotEqual | GreaterThan | LessThan | AtLeast | AtMost | Like

  function Meets(op: Operator, o: Ordering): bool
    requires !op.Like?
  {
    match op
    case EqualTo => o == Equal
    case NotEqual => o != Equal
    case GreaterThan => o == Greater
    case LessThan => o == Less
    case AtLeast => o != Less
    case AtMost => o != Greater
  }

  /** Comparisons with NULL are false; other kinds must match, and LIKE needs text. */
  function Evaluate(lib: Library, op: Operator, left: Value, right: Value): Result<bool> {
    if left.Null? || right.Null? then Ok(false)
    else if Numeric(left) && Numeric(right) then
      if op.Like? then Err(Invalid) else Ok(Meets(op, CompareReals(NumberOf(lib, left), NumberOf(lib, right))))
    else if left.Text? && right.Text? then
      if op.Like? then lib.like(left.utf8, right.utf8) else Ok(Meets(op, CompareBytes(left.utf8, right.utf8)))
    else Err(Invalid)
  }

  // ---------------------------------------------------------------- what comparing means

  /** `a` comes before `b`: they agree up to a place where `a` ends or has the smaller byte. */
  ghost predicate Before(a: seq<byte>, b: seq<byte>) {
    exists i :: DiffersAt(a, b, i)
  }

  ghost predicate DiffersAt(a: seq<byte>, b: seq<byte>, i: int) {
    0 <= i <= |a| && i < |b| && a[..i] == b[..i] && (i == |a| || a[i] < b[i])
  }

  lemma {:induction false} BeforeTail(a: seq<byte>, b: seq<byte>)
    requires a != [] && b != []
    ensures Before(a, b) <==> a[0] < b[0] || (a[0] == b[0] && Before(a[1..], b[1..]))
  {
    if Before(a, b) {
      var i :| DiffersAt(a, b, i);
      if i != 0 {
        assert a[0] == a[..i][0] && b[0] == b[..i][0];
        assert a[1..][..i - 1] == a[..i][1..] && b[1..][..i - 1] == b[..i][1..];
        assert DiffersAt(a[1..], b[1..], i - 1);
      }
    }
    if a[0] < b[0] {
      assert DiffersAt(a, b, 0);
    } else if a[0] == b[0] && Before(a[1..], b[1..]) {
      var i :| DiffersAt(a[1..], b[1..], i);
      assert a[..i + 1] == [a[0]] + a[1..][..i] && b[..i + 1] == [b[0]] + b[1..][..i];
      assert DiffersAt(a, b, i + 1);
    }
  }

  /** Byte strings are compared as dictionaries order words, and are equal only if they are the same. */
  lemma {:induction false} BytesOrder(a: seq<byte>, b: seq<byte>)
    ensures CompareBytes(a, b) == Less <==> Before(a, b)
    ensures CompareBytes(a, b) == Equal <==> a == b
    ensures CompareBytes(a, b) == Greater <==> Before(b, a)
    decreases |a|
  {
    if a == [] || b == [] {
      if a == [] && b != [] {
        assert DiffersAt(a, b, 0);
      }
      if b == [] && a != [] {
        assert DiffersAt(b, a, 0);
      }
    } else {
      BytesOrder(a[1..], b[1..]);
      BeforeTail(a, b);
      BeforeTail(b, a);
      assert a == [a[0]] + a[1..] && b == [b[0]] + b[1..];
    }
  }

  /** Two values are the same: both NULL, the same bytes, vectors that print alike, or numbers of
      the same value. */
  ghost predicate SameValue(lib: Library, a: Value, b: Value) {
    || (a.Null? && b.Null?)
    || (a.Text? && b.Text? && a.utf8 == b.utf8)
    || (a.Blob? && b.Blob? && a.bytes == b.bytes)
    || (a.Vector? && b.Vector? && lib.show(a.parts) == lib.show(b.parts))
    || (a.Integer? && b.Integer? && a.i == b.i)
    || (a.Integer? && (b.Float? || b.Real?) && a.i as real == lib.number(b.bits))
    || ((a.Float? || a.Real?) && b.Integer? && lib.number(a.bits) == b.i as real)
    || ((a.Float? || a.Real?) && (b.Float? || b.Real?) && lib.number(a.bits) == lib.number(b.bits))
  }

  /** The name that a value prints under. */
  function KindName(v: Value): string {
    match v
    case Null => "Null"
    case Integer(_) => "Integer"
    case Float(_) => "Float"
    case Real(_) => "Real"
    case Text(_) => "Text"
    case Blob(_) => "Blob"
    case Vector(_) => "Vector"
  }

  /** `a` is ordered before `b`: NULL comes last, numbers go by value, byte strings as words do, and
      values of other kinds by the name of their kind. */
  ghost predicate OrderedBefore(lib: Library, a: Value, b: Value) {
    || (!a.Null? && b.Null?)
    || (a.Integer? && b.Integer? && a.i < b.i)
    || (a.Integer? && (b.Float? || b.Real?) && a.i as real < lib.number(b.bits))
    || ((a.Float? || a.Real?) && b.Integer? && lib.number(a.bits) < b.i as real)
    || ((a.Float? || a.Real?) && (b.Float? || b.Real?) && lib.number(a.bits) < lib.number(b.bits))
    || (a.Text? && b.Text? && Before(a.utf8, b.utf8))
    || (a.Blob? && b.Blob? && Before(a.bytes, b.bytes))
    || (a.Vector? && b.Vector? && Before(lib.show(a.parts), lib.show(b.parts)))
    || (!a.Null? && !b.Null? && !(Numeric(a) && Numeric(b)) && KindName(a)[0] < KindName(b)[0])
  }

  lemma {:induction false} CompareMeans(lib: Library, a: Value, b: Value)
    ensures Compare(lib, a, b) == Equal <==> SameValue(lib, a, b)
    ensures Compare(lib, a, b) == Less <==> OrderedBefore(lib, a, b)
    ensures Compare(lib, a, b) == Greater <==> OrderedBefore(lib, b, a)
  {
    if a.Text? && b.Text? {
      BytesOrder(a.utf8, b.utf8);
    } else if a.Blob? && b.Blob? {
      BytesOrder(a.bytes, b.bytes);
    } else if a.Vector? && b.Vector? {
      BytesOrder(lib.show(a.parts), lib.show(b.parts));
    }
    Initials(a);
    Initials(b);
  }

  lemma Initials(v: Value)
    ensures Initial(v) == KindName(v)[0] as int
  {
  }

  // ---------------------------------------------------------------- what the operators mean

  lemma EvaluateIntegers(lib: Library, x: I64, y: I64)
    ensures Evaluate(lib, EqualTo, Integer(x), Integer(y)) == Ok(x == y)
    ensures Evaluate(lib, NotEqual, Integer(x), Integer(y)) == Ok(x != y)
    ensures Evaluate(lib, GreaterThan, Integer(x), Integer(y)) == Ok(x > y)
    ensures Evaluate(lib, LessThan, Integer(x), Integer(y)) == Ok(x < y)
    ensures Evaluate(lib, AtLeast, Integer(x), Integer(y)) == Ok(x >= y)
    ensures Evaluate(lib, AtMost, Integer(x), Integer(y)) == Ok(x <= y)
  {
    assert x as real < y as real <==> x < y;
    assert x as real == y as real <==> x == y;
  }

  /** Numbers of any two kinds are compared by value, and LIKE is not for them. */
  lemma EvaluateNumbers(lib: Library, a: Value, b: Value, x: real, y: real)
    requires (a.Integer? && x == a.i as real) || ((a.Float? || a.Real?) && x == lib.number(a.bits))
    requires (b.Integer? && y == b.i as real) || ((b.Float? || b.Real?) && y == lib.number(b.bits))
    ensures Evaluate(lib, EqualTo, a, b) == Ok(x == y) && Evaluate(lib, NotEqual, a, b) == Ok(x != y)
    ensures Evaluate(lib, GreaterThan, a, b) == Ok(x > y) && Evaluate(lib, LessThan, a, b) == Ok(x < y)
    ensures Evaluate(lib, AtLeast, a, b) == Ok(x >= y) && Evaluate(lib, AtMost, a, b) == Ok(x <= y)
    ensures Evaluate(lib, Like, a, b) == Err(Invalid)
  {
  }

  lemma {:induction false} EvaluateTexts(lib: Library, a: seq<byte>, b: seq<byte>)
    ensures Evaluate(lib, EqualTo, Text(a), Text(b)) == Ok(a == b) && Evaluate(lib, NotEqual, Text(a), Text(b)) == Ok(a != b)
    ensures Evaluate(lib, GreaterThan, Text(a), Text(b)) == Ok(Before(b, a)) && Evaluate(lib, LessThan, Text(a), Text(b)) == Ok(Before(a, b))
    ensures Evaluate(lib, AtLeast, Text(a), Text(b)) == Ok(a == b || Before(b, a)) && Evaluate(lib, AtMost, Text(a), Text(b)) == Ok(a == b || Before(a, b))
    ensures Evaluate(lib, Like, Text(a), Text(b)) == lib.like(a, b)
  {
    BytesOrder(a, b);
  }

  /** Nothing holds of NULL; and values that are neither two numbers nor two texts cannot be
      compared at all. */
  lemma EvaluateOthers(lib: Library, op: Operator, a: Value, b: Value)
    ensures a.Null? || b.Null? ==> Evaluate(lib, op, a, b) == Ok(false)
    ensures (a.Blob? && !b.Null?) || (b.Blob? && !a.Null?) ==> Evaluate(lib, op, a, b) == Err(Invalid)
    ensures (a.Vector? && !b.Null?) || (b.Vector? && !a.Null?) ==> Evaluate(lib, op, a, b) == Err(Invalid)
    ensures (a.Text? && (b.Integer? || b.Float? || b.Real?)) || (b.Text? && (a.Integer? || a.Float? || a.Real?)) ==> Evaluate(lib, op, a, b) == Err(Invalid)
  {
  }
}
