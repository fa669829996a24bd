/** A JSON value as the jsoncpp library holds it (the toolkit's
    `Configuration`), reduced to what the modelled code reads and writes:
    there are no floating-point numbers.  The library itself is not part
    of this model; the accessors below follow its documented behaviour:
    object members are kept in byte-wise key order, `operator[]` on a
    const null value yields null, `asInt` of null is 0 and iterating a
    scalar visits nothing.  Also here: `std::to_string` and `atoi` for
    `int`. */
module Json {
  import opened Wrappers

  datatype Json =
    | Null
    | Bool(b: bool)
    | Int(i: int)
    | Str(s: string)
    | Arr(items: seq<Json>)
    | Obj(members: map<string, Json>)

  // ---------------------------------------------------------------
  // Key order.

  /** The order jsoncpp keeps object keys in: byte-wise lexicographic, a
      proper prefix before its extensions. */
  predicate Below(a: string, b: string)
  {
    if a == [] then b != []
    else if b == [] then false
    else a[0] < b[0] || (a[0] == b[0] && Below(a[1..], b[1..]))
  }

  lemma BelowStrict(a: string, b: string)
    ensures !(Below(a, b) && Below(b, a))
    ensures a == b || Below(a, b) || Below(b, a)
  {
  }

  lemma BelowTransitive(a: string, b: string, c: string)
    requires Below(a, b) && Below(b, c)
    ensures Below(a, c)
  {
  }

  /** `k` is the first key of `s` in key order. */
  predicate IsLeast(k: string, s: set<string>)
  {
    k in s && forall k' | k' in s && k' != k :: Below(k, k')
  }

  lemma {:induction false} LeastExists(s: set<string>)
    requires s != {}
    ensures exists k :: IsLeast(k, s)
    decreases |s|
  {
    var x :| x in s;
    var rest := s - {x};
    if rest == {} {
      assert s == {x};
      assert IsLeast(x, s);
    } else {
      LeastExists(rest);
      var y :| IsLeast(y, rest);
      BelowStrict(x, y);
      if Below(x, y) {
        forall k' | k' in s && k' != x ensures Below(x, k') {
          if k' != y {
            BelowTransitive(x, y, k');
          }
        }
        assert IsLeast(x, s);
      } else {
        assert IsLeast(y, s);
      }
    }
  }

  lemma LeastUnique(k: string, k': string, s: set<string>)
    requires IsLeast(k, s) && IsLeast(k', s)
    ensures k == k'
  {
    if k != k' {
      BelowStrict(k, k');
      assert false;
    }
  }

  /** An object's members under the keys `s`, in key order: the order in
      which jsoncpp visits them. */
  ghost function ObjPairs(m: map<string, Json>, s: set<string>): (r: seq<(string, Json)>)
    requires s <= m.Keys
    ensures |r| == |s|
    decreases |s|
  {
    if s == {} then []
    else
      LeastExists(s);
      var k :| IsLeast(k, s);
      [(k, m[k])] + ObjPairs(m, s - {k})
  }

  /** Whatever least key the iteration picks is the one `ObjPairs` starts
      with. */
  lemma ObjPairsFirst(m: map<string, Json>, s: set<string>, k: string)
    requires s <= m.Keys && IsLeast(k, s)
    ensures ObjPairs(m, s) == [(k, m[k])] + ObjPairs(m, s - {k})
  {
    var k0 := ObjPairs(m, s)[0].0;
    assert IsLeast(k0, s) && ObjPairs(m, s) == [(k0, m[k0])] + ObjPairs(m, s - {k0});
    LeastUnique(k, k0, s);
  }

  /** One pass of the member iteration: emitting the least key left keeps
      the emitted pairs a prefix of `ObjPairs`. */
  lemma MembersStep(m: map<string, Json>, todo: set<string>, k: string, r: seq<(string, Json)>)
    requires todo <= m.Keys && IsLeast(k, todo)
    requires r + ObjPairs(m, todo) == ObjPairs(m, m.Keys)
    ensures (r + [(k, m[k])]) + ObjPairs(m, todo - {k}) == ObjPairs(m, m.Keys)
  {
    ObjPairsFirst(m, todo, k);
    var tail := ObjPairs(m, todo - {k});
    assert r + ([(k, m[k])] + tail) == (r + [(k, m[k])]) + tail;
  }

  /** `ObjPairs` lists members of `m` under keys of `s`, with their values. */
  lemma {:induction false} ObjPairsMembers(m: map<string, Json>, s: set<string>)
    requires s <= m.Keys
    ensures forall i | 0 <= i < |ObjPairs(m, s)| :: ObjPairs(m, s)[i].0 in s && ObjPairs(m, s)[i].1 == m[ObjPairs(m, s)[i].0]
    decreases |s|
  {
    if s != {} {
      LeastExists(s);
      var k :| IsLeast(k, s);
      ObjPairsFirst(m, s, k);
      ObjPairsMembers(m, s - {k});
    }
  }

  /** `ObjPairs` lists the keys in strictly increasing order. */
  lemma {:induction false} ObjPairsOrdered(m: map<string, Json>, s: set<string>)
    requires s <= m.Keys
    ensures forall i, j | 0 <= i < j < |ObjPairs(m, s)| :: Below(ObjPairs(m, s)[i].0, ObjPairs(m, s)[j].0)
    decreases |s|
  {
    if s != {} {
      LeastExists(s);
      var k :| IsLeast(k, s);
      ObjPairsFirst(m, s, k);
      ObjPairsMembers(m, s - {k});
      ObjPairsOrdered(m, s - {k});
      var r, t := ObjPairs(m, s), ObjPairs(m, s - {k});
      forall i, j | 0 <= i < j < |r| ensures Below(r[i].0, r[j].0) {
        if i == 0 {
          assert r[j] == t[j - 1];
          assert r[j].0 in s - {k};
        } else {
          assert r[i] == t[i - 1] && r[j] == t[j - 1];
        }
      }
    }
  }

  /** `ObjPairs` lists every key of `s`. */
  lemma {:induction false} ObjPairsCovers(m: map<string, Json>, s: set<string>)
    requires s <= m.Keys
    ensures forall k | k in s :: exists i | 0 <= i < |ObjPairs(m, s)| :: ObjPairs(m, s)[i].0 == k
    decreases |s|
  {
    if s != {} {
      LeastExists(s);
      var k :| IsLeast(k, s);
      ObjPairsFirst(m, s, k);
      ObjPairsCovers(m, s - {k});
      var r, t := ObjPairs(m, s), ObjPairs(m, s - {k});
      forall k' | k' in s ensures exists i | 0 <= i < |r| :: r[i].0 == k' {
        if k' != k {
          assert k' in s - {k};
          var i :| 0 <= i < |t| && t[i].0 == k';
          assert r[i + 1].0 == k';
        } else {
          assert r[0].0 == k';
        }
      }
    }
  }

  // ---------------------------------------------------------------
  // Iteration and access.

  /** The (key, value) pairs that iterating `j` visits, in order: an
      object's members in key order, an array's elements keyed by their
      index, and nothing for null or a scalar. */
  ghost function Members(j: Json): seq<(string, Json)>
  {
    match j
    case Obj(m) => ObjPairs(m, m.Keys)
    case Arr(a) => seq(|a|, i requires 0 <= i < |a| => (Decimal(i), a[i]))
    case _ => []
  }

  /** Iterating an object visits each member exactly once, with its value,
      in strictly increasing key order. */
  lemma MembersOfObject(m: map<string, Json>)
    ensures |Members(Obj(m))| == |m|
    ensures forall i | 0 <= i < |Members(Obj(m))| ::
              Members(Obj(m))[i].0 in m && Members(Obj(m))[i].1 == m[Members(Obj(m))[i].0]
    ensures forall k | k in m :: exists i | 0 <= i < |Members(Obj(m))| :: Members(Obj(m))[i].0 == k
    ensures forall i, i' | 0 <= i < i' < |Members(Obj(m))| :: Below(Members(Obj(m))[i].0, Members(Obj(m))[i'].0)
  {
    ObjPairsMembers(m, m.Keys);
    ObjPairsOrdered(m, m.Keys);
    ObjPairsCovers(m, m.Keys);
  }

  /** `ps` lists the members of `m`, each once and with its value. */
  ghost predicate Enumerates(m: map<string, Json>, ps: seq<(string, Json)>)
  {
    && |ps| == |m|
    && (forall i | 0 <= i < |ps| :: ps[i].0 in m && ps[i].1 == m[ps[i].0])
    && (forall k | k in m :: exists i | 0 <= i < |ps| :: ps[i].0 == k)
    && (forall i, i' | 0 <= i < i' < |ps| :: ps[i].0 != ps[i'].0)
  }

  /** Iterating an object enumerates its members. */
  lemma MembersEnumerate(m: map<string, Json>)
    ensures Enumerates(m, Members(Obj(m)))
  {
    var ps := Members(Obj(m));
    MembersOfObject(m);
    forall i, i' | 0 <= i < i' < |ps| ensures ps[i].0 != ps[i'].0 {
      BelowStrict(ps[i].0, ps[i'].0);
    }
  }

  /** Iterating an array visits its elements in order. */
  lemma MembersOfArray(a: seq<Json>)
    ensures |Members(Arr(a))| == |a|
    ensures forall i | 0 <= i < |a| :: Members(Arr(a))[i] == (Decimal(i), a[i])
  {
  }

  /** Iterating null or a scalar visits nothing. */
  lemma MembersOfScalar(j: Json)
    requires !j.Arr? && !j.Obj?
    ensures Members(j) == []
  {
  }

  /** Walks `j` the way a jsoncpp iterator does, collecting what it visits. */
  method MembersOf(j: Json) returns (r: seq<(string, Json)>)
    ensures r == Members(j)
  {
    match j
    case Obj(m) =>
      r := ObjectMembers(m);
    case Arr(a) =>
      r := [];
      for i := 0 to |a|
        invariant r == seq(i, n requires 0 <= n < i => (Decimal(n), a[n]))
      {
        r := r + [(Decimal(i), a[i])];
      }
    case _ =>
      r := [];
  }

  /** An object's members, taking the least remaining key each time. */
  method ObjectMembers(m: map<string, Json>) returns (r: seq<(string, Json)>)
    ensures r == ObjPairs(m, m.Keys)
  {
    r := [];
    var todo := m.Keys;
    while todo != {}
      invariant todo <= m.Keys
      invariant r + ObjPairs(m, todo) == ObjPairs(m, m.Keys)
      decreases |todo|
    {
      LeastExists(todo);
      var k :| IsLeast(k, todo);
      MembersStep(m, todo, k, r);
      r := r + [(k, m[k])];
      todo := todo - {k};
    }
  }

  /** `operator[](ArrayIndex) const`: null on null and past the end of an
      array, a LogicError on any other kind of value. */
  function At(j: Json, k: nat): (r: Result<Json>)
    ensures r.Ok? <==> j.Null? || j.Arr?
    ensures r.Ok? && j.Arr? && k < |j.items| ==> r.value == j.items[k]
    ensures r.Ok? && !(j.Arr? && k < |j.items|) ==> r.value == Null
    ensures r.Err? ==> r.error == LogicError
  {
    match j
    case Null => Ok(Null)
    case Arr(a) => if k < |a| then Ok(a[k]) else Ok(Null)
    case _ => Err(LogicError)
  }

  /** `operator[](key) const`: null on null and for a missing member, a
      LogicError on anything but an object. */
  function Get(j: Json, key: string): (r: Result<Json>)
    ensures r.Ok? <==> j.Null? || j.Obj?
    ensures r.Ok? && j.Obj? && key in j.members ==> r.value == j.members[key]
    ensures r.Ok? && !(j.Obj? && key in j.members) ==> r.value == Null
    ensures r.Err? ==> r.error == LogicError
  {
    match j
    case Null => Ok(Null)
    case Obj(m) => if key in m then Ok(m[key]) else Ok(Null)
    case _ => Err(LogicError)
  }

  /** `asInt()`: 0 for null, 0 or 1 for a boolean, an integer that fits an
      `int`; a LogicError otherwise. */
  function AsInt(j: Json): (r: Result<Int32>)
    ensures j.Int? && -0x8000_0000 <= j.i < 0x8000_0000 ==> r == Ok(j.i)
    ensures j.Null? ==> r == Ok(0)
    ensures j.Str? || j.Arr? || j.Obj? ==> r == Err(LogicError)
    ensures r.Err? ==> r.error == LogicError
  {
    match j
    case Null => Ok(0)
    case Bool(b) => Ok(if b then 1 else 0)
    case Int(i) => if -0x8000_0000 <= i < 0x8000_0000 then Ok(i) else Err(LogicError)
    case _ => Err(LogicError)
  }

  // ---------------------------------------------------------------
  // Decimal strings.

  predicate IsDigit(c: char)
  {
    '0' <= c <= '9'
  }

  function Digit(d: nat): (c: char)
    requires d < 10
    ensures IsDigit(c) && c as int - '0' as int == d
  {
    ('0' as int + d) as char
  }

  /** The decimal digits of `n`, most significant first, no leading zero. */
  function Digits(n: nat): string
  {
    if n < 10 then [Digit(n)] else Digits(n / 10) + [Digit(n % 10)]
  }

  predicate AllDigits(s: string)
  {
    forall i | 0 <= i < |s| :: IsDigit(s[i])
  }

  lemma {:induction false} DigitsShape(n: nat)
    ensures Digits(n) != [] && AllDigits(Digits(n))
    ensures |Digits(n)| > 1 ==> Digits(n)[0] != '0'
  {
    if n >= 10 {
      DigitsShape(n / 10);
    }
  }

  /** `std::to_string(int)`. */
  function Decimal(i: int): string
  {
    if i < 0 then "-" + Digits(-i) else Digits(i)
  }

  /** `isspace` in the C locale. */
  predicate IsSpace(c: char)
  {
    c == ' ' || 9 <= c as int <= 13
  }

  function DropSpace(s: string): (r: string)
    ensures r == [] || !IsSpace(r[0])
  {
    if s != [] && IsSpace(s[0]) then DropSpace(s[1..]) else s
  }

  /** The longest all-digit prefix. */
  function LeadingDigits(s: string): (r: string)
    ensures |r| <= |s| && r == s[..|r|]
    ensures forall i | 0 <= i < |r| :: IsDigit(r[i])
    ensures |r| < |s| ==> !IsDigit(s[|r|])
  {
    if s != [] && IsDigit(s[0]) then [s[0]] + LeadingDigits(s[1..]) else []
  }

  /** The number an all-digit string spells. */
  function DigitsValue(ds: string): nat
    requires forall i | 0 <= i < |ds| :: IsDigit(ds[i])
  {
    if ds == [] then 0
    else DigitsValue(ds[..|ds| - 1]) * 10 + DigitValue(ds[|ds| - 1])
  }

  function DigitValue(c: char): nat
    requires IsDigit(c)
  {
    c as int - '0' as int
  }

  /** `atoi`: white space, an optional sign, then as many digits as there
      are; no digits give 0.  A value that does not fit an `int` is
      undefined behaviour in C. */
  function Atoi(s: string): (r: Result<Int32>)
    ensures r.Err? ==> r.error == Undefined
  {
    var t := DropSpace(s);
    var signed := t != [] && (t[0] == '-' || t[0] == '+');
    var u := if signed then t[1..] else t;
    var v := DigitsValue(LeadingDigits(u));
    var x: int := if signed && t[0] == '-' then -(v as int) else v as int;
    if -0x8000_0000 <= x < 0x8000_0000 then Ok(x) else Err(Undefined)
  }

  lemma {:induction false} LeadingDigitsAll(s: string)
    requires forall i | 0 <= i < |s| :: IsDigit(s[i])
    ensures LeadingDigits(s) == s
    decreases |s|
  {
    if s != [] {
      LeadingDigitsAll(s[1..]);
    }
  }

  lemma {:induction false} DigitsValueOfDigits(n: nat)
    ensures AllDigits(Digits(n)) && DigitsValue(Digits(n)) == n
  {
    var ds := Digits(n);
    DigitsShape(n);
    if n >= 10 {
      assert ds[..|ds| - 1] == Digits(n / 10);
      DigitsValueOfDigits(n / 10);
    }
  }

  /** `atoi` reads back what `std::to_string` writes. */
  lemma AtoiDecimal(i: Int32)
    ensures Atoi(Decimal(i)) == Ok(i)
  {
    var n: nat := if i < 0 then -(i as int) else i as int;
    DigitsShape(n);
    DigitsValueOfDigits(n);
    if i < 0 {
      AtoiOfNegative(Digits(n));
    } else {
      AtoiOfDigits(Digits(n));
    }
  }

  /** `atoi` of a digit string whose value fits an `int`. */
  lemma AtoiOfDigits(ds: string)
    requires ds != [] && AllDigits(ds) && DigitsValue(ds) < 0x8000_0000
    ensures Atoi(ds) == Ok(DigitsValue(ds))
  {
    assert DropSpace(ds) == ds;
    assert !(ds[0] == '-' || ds[0] == '+');
    LeadingDigitsAll(ds);
  }

  /** `atoi` of a minus sign and a digit string whose negation fits an
      `int`. */
  lemma AtoiOfNegative(ds: string)
    requires ds != [] && AllDigits(ds) && DigitsValue(ds) <= 0x8000_0000
    ensures Atoi("-" + ds) == Ok(-(DigitsValue(ds) as int))
  {
    LeadingDigitsAll(ds);
    var s := "-" + ds;
    assert s[0] == '-' && s[1..] == ds;
    assert DropSpace(s) == s;
    assert DigitsValue(LeadingDigits(s[1..])) == DigitsValue(ds);
  }

  lemma DecimalDistinct(a: Int32, b: Int32)
    requires a != b
    ensures Decimal(a) != Decimal(b)
  {
    AtoiDecimal(a);
    AtoiDecimal(b);
  }

  /** Distinct integers have distinct decimal strings. */
  lemma DecimalInjective()
    ensures forall a: Int32, b: Int32 | Decimal(a) == Decimal(b) :: a == b
  {
    forall a: Int32, b: Int32 | Decimal(a) == Decimal(b) ensures a == b {
      AtoiDecimal(a);
      AtoiDecimal(b);
    }
  }

  /** `atoi` stops at the first character that is not a digit. */
  lemma AtoiStopsAtNonDigit()
    ensures Atoi("12abc") == Ok(12)
  {
    assert LeadingDigits("12abc") == "12" by {
      assert LeadingDigits("abc") == [];
    }
    assert DigitsValue("12") == 12 by {
      assert "12"[..1] == "1";
    }
  }

  /** `atoi` skips leading white space and reads a sign. */
  lemma AtoiSkipsSpace()
    ensures Atoi(" \t-7") == Ok(-7)
  {
    assert DropSpace(" \t-7") == "-7";
    assert "-7"[1..] == "7";
    assert LeadingDigits("7") == "7" by {
      LeadingDigitsAll("7");
    }
    assert DigitsValue("7") == 7 by {
      assert "7"[..0] == [];
    }
  }

  /** `atoi` of a string without leading digits is 0. */
  lemma AtoiNoDigits()
    ensures Atoi("x1") == Ok(0)
  {
  }
}
