/** Frontmatter values as the YAML loader hands them to the converter, and
    the few pieces of Python semantics the converter relies on: dictionary
    lookup, truthiness and `str()`. */
module Values {

  datatype Option<+T> = None | Some(value: T)

  /** A header value. YAML scalars and flat lists load as one of these:
      a string, a list of strings, a boolean, an integer, null, or some
      other scalar (a float, say) carried by its `str()` text and its
      truthiness. */
  datatype Value =
    | Str(s: string)
    | StrList(items: seq<string>)
    | Bool(b: bool)
    | Int(n: int)
    | Null
    | Other(text: string, truthy: bool)

  /** A loaded header: a Python dict, as its (key, value) items in insertion order. */
  type Header = seq<(string, Value)>

  predicate HasKey(h: Header, k: string)
  {
    exists i :: 0 <= i < |h| && h[i].0 == k
  }

  /** `k in h` followed by `h[k]`: the value of the first item with key `k`. */
  function Lookup(h: Header, k: string): (r: Option<Value>)
    ensures r.Some? <==> HasKey(h, k)
    ensures r.Some? ==> exists i :: 0 <= i < |h| && h[i] == (k, r.value)
  {
    if h == [] then None
    else if h[0].0 == k then Some(h[0].1)
    else
      var r := Lookup(h[1..], k);
      assert forall i :: 0 <= i < |h[1..]| ==> h[1..][i] == h[i + 1];
      r
  }

  /** Looking a key up in two headers laid end to end finds it in the first
      one when it is there, and in the second one otherwise. */
  lemma {:induction false} LookupAppend(a: Header, b: Header, k: string)
    ensures Lookup(a + b, k) == if Lookup(a, k).Some? then Lookup(a, k) else Lookup(b, k)
  {
    if a != [] {
      assert (a + b)[0] == a[0];
      assert (a + b)[1..] == a[1..] + b;
      LookupAppend(a[1..], b, k);
    } else {
      assert a + b == b;
    }
  }

  /** Python truthiness of a loaded value. */
  predicate Truthy(v: Value)
  {
    match v
    case Str(s) => s != ""
    case StrList(items) => items != []
    case Bool(b) => b
    case Int(n) => n != 0
    case Null => false
    case Other(_, t) => t
  }

  function DigitChar(d: nat): (c: char)
    requires d < 10
    ensures '0' <= c <= '9'
    ensures c as int - '0' as int == d
  {
    ('0' as int + d) as char
  }

  predicate IsDigit(c: char)
  {
    '0' <= c <= '9'
  }

  predicate AllDigits(s: string)
  {
    forall i :: 0 <= i < |s| ==> IsDigit(s[i])
  }

  /** The number a string of decimal digits spells. */
  function Num(s: string): (n: nat)
    requires AllDigits(s)
  {
    if s == [] then 0 else Num(s[..|s| - 1]) * 10 + (s[|s| - 1] as int - '0' as int)
  }

  /** Decimal text of a natural number: it spells the number, and has a
      leading zero only when it is the number zero itself. */
  function NatText(n: nat): (r: string)
    ensures |r| >= 1 && AllDigits(r)
    ensures Num(r) == n
    ensures r[0] == '0' <==> n == 0
    ensures n == 0 ==> r == "0"
  {
    if n < 10 then
      var r := [DigitChar(n)];
      assert r[..0] == [];
      r
    else
      var init := NatText(n / 10);
      var r := init + [DigitChar(n % 10)];
      assert r[..|r| - 1] == init;
      r
  }

  /** `str()` of an int: the digits of its magnitude, after a `-` when it
      is negative. */
  function IntText(n: int): (r: string)
    ensures |r| >= 1
    ensures (r[0] == '-') <==> n < 0
    ensures n == 0 ==> r == "0"
    ensures n >= 0 ==> AllDigits(r) && Num(r) == n && (r[0] == '0' <==> n == 0)
    ensures n < 0 ==> |r| >= 2 && AllDigits(r[1..]) && Num(r[1..]) == -n && r[1] != '0'
  {
    if n < 0 then
      var r := "-" + NatText(-n);
      assert r[1..] == NatText(-n);
      r
    else NatText(n)
  }

  function JoinWith(parts: seq<string>, sep: string): string
  {
    if |parts| == 0 then ""
    else if |parts| == 1 then parts[0]
    else parts[0] + sep + JoinWith(parts[1..], sep)
  }

  /** `repr()` of each string of a list, single-quoted. */
  function Quoted(items: seq<string>): (r: seq<string>)
    ensures |r| == |items|
    ensures forall i :: 0 <= i < |items| ==> r[i] == "'" + items[i] + "'"
  {
    if items == [] then [] else ["'" + items[0] + "'"] + Quoted(items[1..])
  }

  /** Python `str()` of a loaded value. A string is its own text; the
      other values take Python's spelling (`True`, `None`, `-12`,
      `['a', 'b']`). */
  function Stringify(v: Value): (r: string)
    ensures v.Str? ==> r == v.s
    ensures v.Bool? ==> r == (if v.b then "True" else "False")
    ensures v.Null? ==> r == "None"
    ensures v.Other? ==> r == v.text
    ensures v.Int? && v.n >= 0 ==> |r| >= 1 && AllDigits(r) && Num(r) == v.n && (r[0] == '0' <==> v.n == 0)
    ensures v.Int? && v.n < 0 ==> |r| >= 2 && r[0] == '-' && AllDigits(r[1..]) && Num(r[1..]) == -v.n && r[1] != '0'
    ensures v.Int? && v.n == 0 ==> r == "0"
    ensures v.StrList? ==> |r| >= 2 && r[0] == '[' && r[|r| - 1] == ']'
    ensures v.StrList? && v.items == [] ==> r == "[]"
    ensures v.StrList? && |v.items| == 1 ==> r == "['" + v.items[0] + "']"
  {
    match v
    case Str(s) => s
    case StrList(items) => "[" + JoinWith(Quoted(items), ", ") + "]"
    case Bool(b) => if b then "True" else "False"
    case Int(n) => IntText(n)
    case Null => "None"
    case Other(text, _) => text
  }

  /** A list of strings is written element by element: the first element
      quoted, then, when more follow, `", "` and the text of the rest
      without its opening bracket. */
  lemma StringifyCons(x: string, rest: seq<string>)
    ensures Stringify(StrList([x] + rest)) ==
            if rest == [] then "['" + x + "']"
            else "['" + x + "', " + Stringify(StrList(rest))[1..]
  {
    QuotedCons(x, rest);
    if rest != [] {
      var tail := JoinWith(Quoted(rest), ", ");
      JoinCons("'" + x + "'", Quoted(rest), ", ");
      assert Stringify(StrList(rest))[1..] == tail + "]";
      ListRegroup(x, tail);
    }
  }

  lemma QuotedCons(x: string, rest: seq<string>)
    ensures Quoted([x] + rest) == ["'" + x + "'"] + Quoted(rest)
  {
    assert ([x] + rest)[1..] == rest;
  }

  lemma JoinCons(p: string, ps: seq<string>, sep: string)
    requires ps != []
    ensures JoinWith([p] + ps, sep) == p + sep + JoinWith(ps, sep)
  {
    assert ([p] + ps)[1..] == ps;
  }

  lemma ListRegroup(x: string, tail: string)
    ensures "[" + ("'" + x + "'" + ", " + tail) + "]" == "['" + x + "', " + (tail + "]")
  {
  }
}
