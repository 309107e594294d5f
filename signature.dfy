/** Launch-parameter checks of the main service (main_service/src/utils.py):
    the signature check `is_valid` and the parser `parse_query_string`.

    The request's parameters are the items of a dictionary, in insertion
    order. HMAC-SHA256, base64 and `urlencode` are passed in as functions
    (`Crypto`); the selection, the ordering and the text post-processing
    around them are modelled exactly. */
module Signature {
  import opened Types
  import opened Text

  /** One (key, value) item of the request's parameter dictionary. */
  type Item = (string, string)

  /** The primitives the check relies on: `urlencode(pairs, doseq=True)`,
      `HMAC(secret, message, sha256).digest()` on the UTF-8 encodings, and
      `b64encode(digest).decode()`. */
  datatype Crypto = Crypto(
    urlencode: seq<Item> -> string,
    hmacSha256: (string, string) -> seq<bv8>,
    b64encode: seq<bv8> -> string)

  // ---------------------------------------------------------------------
  // Ordering: Python compares strings code point by code point, and tuples
  // component by component.

  /** `a <= b` for Python strings. */
  predicate StrLeq(a: string, b: string)
  {
    if a == [] then true
    else if b == [] then false
    else if a[0] != b[0] then a[0] < b[0]
    else StrLeq(a[1..], b[1..])
  }

  lemma StrLeqTotal(a: string, b: string)
    ensures StrLeq(a, b) || StrLeq(b, a)
  {
  }

  lemma StrLeqAntisymmetric(a: string, b: string)
    requires StrLeq(a, b) && StrLeq(b, a)
    ensures a == b
  {
    if a != [] && b != [] {
      StrLeqAntisymmetric(a[1..], b[1..]);
      assert a == [a[0]] + a[1..] && b == [b[0]] + b[1..];
    }
  }

  lemma StrLeqTransitive(a: string, b: string, c: string)
    requires StrLeq(a, b) && StrLeq(b, c)
    ensures StrLeq(a, c)
  {
  }

  /** `x <= y` for two (key, value) tuples. */
  predicate ItemLeq(x: Item, y: Item)
  {
    if x.0 != y.0 then StrLeq(x.0, y.0) else StrLeq(x.1, y.1)
  }

  lemma ItemLeqTotal(x: Item, y: Item)
    ensures ItemLeq(x, y) || ItemLeq(y, x)
  {
    StrLeqTotal(x.0, y.0);
    StrLeqTotal(x.1, y.1);
  }

  lemma ItemLeqAntisymmetric(x: Item, y: Item)
    requires ItemLeq(x, y) && ItemLeq(y, x)
    ensures x == y
  {
    if x.0 != y.0 {
      StrLeqAntisymmetric(x.0, y.0);
    } else {
      StrLeqAntisymmetric(x.1, y.1);
    }
  }

  lemma ItemLeqTransitive(x: Item, y: Item, z: Item)
    requires ItemLeq(x, y) && ItemLeq(y, z)
    ensures ItemLeq(x, z)
  {
    if x.0 == y.0 && y.0 == z.0 {
      StrLeqTransitive(x.1, y.1, z.1);
    } else if x.0 == y.0 || y.0 == z.0 {
    } else if x.0 == z.0 {
      StrLeqAntisymmetric(x.0, y.0);
      StrLeqTransitive(y.0, z.0, x.0);
    } else {
      StrLeqTransitive(x.0, y.0, z.0);
    }
  }

  ghost predicate IsSorted(s: seq<Item>)
  {
    forall i, j :: 0 <= i < j < |s| ==> ItemLeq(s[i], s[j])
  }

  /** Inserts `x` before the first item it does not follow. */
  function Insert(x: Item, s: seq<Item>): (r: seq<Item>)
    ensures multiset(r) == multiset(s) + multiset{x}
    ensures |r| == |s| + 1
  {
    if s == [] then [x]
    else if ItemLeq(x, s[0]) then [x] + s
    else
      assert s == [s[0]] + s[1..];
      [s[0]] + Insert(x, s[1..])
  }

  /** Putting in front an item that precedes every item keeps the order. */
  lemma ConsSorted(y: Item, s: seq<Item>)
    requires IsSorted(s)
    requires forall j :: 0 <= j < |s| ==> ItemLeq(y, s[j])
    ensures IsSorted([y] + s)
  {
    var r := [y] + s;
    forall i, j | 0 <= i < j < |r| ensures ItemLeq(r[i], r[j]) {
      if i > 0 {
        assert r[i] == s[i - 1] && r[j] == s[j - 1];
      }
    }
  }

  /** An item that precedes `x` and every item of `s` precedes every item
      of `Insert(x, s)`. */
  lemma InsertLowerBound(y: Item, x: Item, s: seq<Item>)
    requires ItemLeq(y, x)
    requires forall j :: 0 <= j < |s| ==> ItemLeq(y, s[j])
    ensures forall j :: 0 <= j < |Insert(x, s)| ==> ItemLeq(y, Insert(x, s)[j])
  {
    var r := Insert(x, s);
    forall j | 0 <= j < |r| ensures ItemLeq(y, r[j]) {
      assert r[j] in multiset(s) + multiset{x};
      if r[j] != x {
        assert r[j] in s;
      }
    }
  }

  lemma {:induction false} InsertSorted(x: Item, s: seq<Item>)
    requires IsSorted(s)
    ensures IsSorted(Insert(x, s))
  {
    if s == [] {
    } else if ItemLeq(x, s[0]) {
      forall j | 0 <= j < |s| ensures ItemLeq(x, s[j]) {
        if j > 0 {
          ItemLeqTransitive(x, s[0], s[j]);
        }
      }
      ConsSorted(x, s);
    } else {
      ItemLeqTotal(x, s[0]);
      InsertSorted(x, s[1..]);
      InsertLowerBound(s[0], x, s[1..]);
      ConsSorted(s[0], Insert(x, s[1..]));
    }
  }

  /** `sorted(items)`: the items in ascending order. */
  function Sort(s: seq<Item>): (r: seq<Item>)
    ensures multiset(r) == multiset(s)
  {
    if s == [] then []
    else
      assert s == [s[0]] + s[1..];
      Insert(s[0], Sort(s[1..]))
  }

  lemma {:induction false} SortSorted(s: seq<Item>)
    ensures IsSorted(Sort(s))
  {
    if s != [] {
      SortSorted(s[1..]);
      InsertSorted(s[0], Sort(s[1..]));
    }
  }

  lemma SortedHeadLeq(s: seq<Item>, x: Item)
    requires IsSorted(s) && x in s
    ensures ItemLeq(s[0], x)
  {
    var k :| 0 <= k < |s| && s[k] == x;
    if k == 0 {
      ItemLeqTotal(x, x);
    }
  }

  lemma MultisetTail(s: seq<Item>)
    requires s != []
    ensures multiset(s[1..]) == multiset(s) - multiset{s[0]}
  {
    assert s == [s[0]] + s[1..];
  }

  lemma SortedTail(s: seq<Item>)
    requires IsSorted(s) && s != []
    ensures IsSorted(s[1..])
  {
  }

  /** Two ascending sequences of the same items start with the same item. */
  lemma SortedSameHead(a: seq<Item>, b: seq<Item>)
    requires IsSorted(a) && IsSorted(b) && multiset(a) == multiset(b) && a != []
    ensures b != [] && a[0] == b[0]
  {
    assert a[0] in multiset(b);
    assert b[0] in multiset(a);
    SortedHeadLeq(b, a[0]);
    SortedHeadLeq(a, b[0]);
    ItemLeqAntisymmetric(a[0], b[0]);
  }

  /** Two ascending sequences of the same items are the same sequence: the
      order `sorted` produces does not depend on the order of its input. */
  lemma {:induction false} SortedUnique(a: seq<Item>, b: seq<Item>)
    requires IsSorted(a) && IsSorted(b) && multiset(a) == multiset(b)
    ensures a == b
  {
    if a == [] {
      assert |b| == |multiset(b)| == 0;
    } else {
      SortedSameHead(a, b);
      MultisetTail(a);
      MultisetTail(b);
      SortedTail(a);
      SortedTail(b);
      SortedUnique(a[1..], b[1..]);
      assert a == [a[0]] + a[1..] && b == [b[0]] + b[1..];
    }
  }

  // ---------------------------------------------------------------------
  // is_valid

  /** `key[:3] == "vk_"` */
  predicate IsVkKey(key: string)
  {
    |key| >= 3 && key[..3] == "vk_"
  }

  /** The items whose key starts with `vk_`, in dictionary order. */
  function VkItems(query: seq<Item>): (r: seq<Item>)
    ensures forall x :: x in r ==> IsVkKey(x.0)
  {
    if query == [] then []
    else (if IsVkKey(query[0].0) then [query[0]] else []) + VkItems(query[1..])
  }

  /** The `vk_` items of two runs of parameters are those of the first run
      followed by those of the second: the filter keeps dictionary order. */
  lemma {:induction false} VkItemsAppend(a: seq<Item>, b: seq<Item>)
    ensures VkItems(a + b) == VkItems(a) + VkItems(b)
  {
    if a != [] {
      assert (a + b)[0] == a[0] && (a + b)[1..] == a[1..] + b;
      VkItemsAppend(a[1..], b);
    } else {
      assert a + b == b;
    }
  }

  lemma {:induction false} VkItemsCount(query: seq<Item>, x: Item)
    ensures multiset(VkItems(query))[x] == if IsVkKey(x.0) then multiset(query)[x] else 0
  {
    if query != [] {
      VkItemsCount(query[1..], x);
      assert query == [query[0]] + query[1..];
    }
  }

  /** `query[key]` for the items of a dictionary: the value of the first
      item with that key, if any. */
  function Lookup(query: seq<Item>, key: string): (r: Option<string>)
    ensures r.None? <==> forall i :: 0 <= i < |query| ==> query[i].0 != key
    ensures r.Some? ==> (key, r.value) in query
  {
    if query == [] then None
    else if query[0].0 == key then Some(query[0].1)
    else Lookup(query[1..], key)
  }

  /** No two items share a key, as in any dictionary. */
  ghost predicate DistinctKeys(query: seq<Item>)
  {
    forall i, j :: 0 <= i < j < |query| ==> query[i].0 != query[j].0
  }

  lemma {:induction false} LookupDistinct(query: seq<Item>, key: string, v: string)
    requires DistinctKeys(query) && (key, v) in query
    ensures Lookup(query, key) == Some(v)
  {
    if query[0].0 != key {
      assert (key, v) in query[1..];
      LookupDistinct(query[1..], key, v);
    }
  }

  /** The base64 text of the digest, minus its last character, with `+`
      replaced by `-` and `/` by `_`. */
  function UrlSafe(b64: string): (r: string)
    ensures |r| == if b64 == [] then 0 else |b64| - 1
    ensures '+' !in r && '/' !in r
    ensures forall i :: 0 <= i < |r| ==>
              r[i] == (if b64[i] == '+' then '-' else if b64[i] == '/' then '_' else b64[i])
  {
    var trimmed := if b64 == [] then [] else b64[..|b64| - 1];
    var plus := Replace(trimmed, "+", "-");
    ReplaceCharAt(trimmed, '+', '-');
    ReplaceCharAt(plus, '/', '_');
    Replace(plus, "/", "_")
  }

  /** The signature the service computes for a request. */
  function ExpectedSign(query: seq<Item>, secret: string, crypto: Crypto): string
  {
    UrlSafe(crypto.b64encode(crypto.hmacSha256(secret, crypto.urlencode(Sort(VkItems(query))))))
  }

  /** `is_valid`: the request's `sign` equals the computed signature; a
      request without `sign` raises `KeyError`. */
  function IsValid(query: seq<Item>, secret: string, crypto: Crypto): (r: Result<bool>)
    ensures r.Failure? <==> forall i :: 0 <= i < |query| ==> query[i].0 != "sign"
    ensures r.Failure? ==> r.exc == KeyError
    ensures r.Success? ==> (r.value <==> Lookup(query, "sign") == Some(ExpectedSign(query, secret, crypto)))
  {
    match Lookup(query, "sign")
    case None => Failure(KeyError)
    case Some(sign) => Success(sign == ExpectedSign(query, secret, crypto))
  }

  /** The verdict depends only on the `vk_` items, as a collection, and on
      `sign`. */
  lemma VerdictDependsOnVkItems(q1: seq<Item>, q2: seq<Item>, secret: string, crypto: Crypto)
    requires multiset(VkItems(q1)) == multiset(VkItems(q2))
    requires Lookup(q1, "sign") == Lookup(q2, "sign")
    ensures IsValid(q1, secret, crypto) == IsValid(q2, secret, crypto)
  {
    SortSorted(VkItems(q1));
    SortSorted(VkItems(q2));
    SortedUnique(Sort(VkItems(q1)), Sort(VkItems(q2)));
  }

  /** Reordering a request's parameters does not change the verdict. */
  lemma VerdictOrderIndependent(q1: seq<Item>, q2: seq<Item>, secret: string, crypto: Crypto)
    requires DistinctKeys(q1) && DistinctKeys(q2) && multiset(q1) == multiset(q2)
    ensures IsValid(q1, secret, crypto) == IsValid(q2, secret, crypto)
  {
    forall x ensures multiset(VkItems(q1))[x] == multiset(VkItems(q2))[x] {
      VkItemsCount(q1, x);
      VkItemsCount(q2, x);
    }
    assert multiset(VkItems(q1)) == multiset(VkItems(q2));
    match Lookup(q1, "sign")
    case None =>
      forall i | 0 <= i < |q2| ensures q2[i].0 != "sign" {
        assert q2[i] in multiset(q1);
      }
    case Some(v) =>
      assert ("sign", v) in multiset(q2);
      LookupDistinct(q2, "sign", v);
    VerdictDependsOnVkItems(q1, q2, secret, crypto);
  }

  /** Changing the value of a parameter that is neither a `vk_` parameter
      nor `sign` does not change the verdict. */
  lemma VerdictIgnoresOtherParams(q: seq<Item>, i: nat, v: string, secret: string, crypto: Crypto)
    requires i < |q| && !IsVkKey(q[i].0) && q[i].0 != "sign"
    ensures IsValid(q[i := (q[i].0, v)], secret, crypto) == IsValid(q, secret, crypto)
  {
    VkItemsIgnoreOther(q, i, v);
    LookupIgnoresOther(q, i, v, "sign");
    VerdictDependsOnVkItems(q[i := (q[i].0, v)], q, secret, crypto);
  }

  lemma {:induction false} VkItemsIgnoreOther(q: seq<Item>, i: nat, v: string)
    requires i < |q| && !IsVkKey(q[i].0)
    ensures VkItems(q[i := (q[i].0, v)]) == VkItems(q)
  {
    var q' := q[i := (q[i].0, v)];
    if i == 0 {
      assert q'[1..] == q[1..];
    } else {
      assert q'[1..] == q[1..][i - 1 := (q[i].0, v)];
      VkItemsIgnoreOther(q[1..], i - 1, v);
    }
  }

  lemma {:induction false} LookupIgnoresOther(q: seq<Item>, i: nat, v: string, key: string)
    requires i < |q| && q[i].0 != key
    ensures Lookup(q[i := (q[i].0, v)], key) == Lookup(q, key)
  {
    var q' := q[i := (q[i].0, v)];
    if i == 0 {
      assert q'[1..] == q[1..];
    } else if q[0].0 != key {
      assert q'[1..] == q[1..][i - 1 := (q[i].0, v)];
      LookupIgnoresOther(q[1..], i - 1, v, key);
    }
  }

  // ---------------------------------------------------------------------
  // parse_query_string

  /** A value of the parsed dictionary: a string, or the integer stored
      under `vk_user_id`. */
  datatype Value = Str(s: string) | Int(n: int)

  predicate IsDigit(c: char)
  {
    '0' <= c <= '9'
  }

  /** What base-10 `int()` accepts after the sign: digits, with single
      underscores allowed between digits. */
  predicate ValidDigits(d: string)
  {
    && |d| >= 1 && IsDigit(d[0]) && IsDigit(d[|d| - 1])
    && (forall i :: 0 <= i < |d| ==> IsDigit(d[i]) || d[i] == '_')
    && (forall i :: 0 <= i < |d| - 1 ==> d[i] == '_' ==> d[i + 1] != '_')
  }

  function DropUnderscores(d: string): (r: string)
    ensures forall c :: c in r <==> c in d && c != '_'
  {
    if d == [] then []
    else (if d[0] == '_' then [] else [d[0]]) + DropUnderscores(d[1..])
  }

  /** The number a string of decimal digits denotes. */
  function DigitsValue(d: string): nat
    requires forall i :: 0 <= i < |d| ==> IsDigit(d[i])
  {
    if d == [] then 0
    else
      var last := d[|d| - 1];
      assert IsDigit(last);
      DigitsValue(d[..|d| - 1]) * 10 + (last as int - '0' as int)
  }

  /** `int(s)` in base 10: surrounding whitespace, an optional sign, and
      ASCII digits with single underscores between them. */
  function ParseInt(s: string): Option<int>
  {
    ParseSigned(Strip(s))
  }

  /** `int()` on text already stripped of surrounding whitespace. */
  function ParseSigned(t: string): Option<int>
  {
    if t == [] then None
    else
      var body := if t[0] == '-' || t[0] == '+' then t[1..] else t;
      if !ValidDigits(body) then None
      else
        var digits := DropUnderscores(body);
        assert forall i :: 0 <= i < |digits| ==> digits[i] in digits;
        var v: int := DigitsValue(digits);
        Some(if t[0] == '-' then -v else v)
  }

  /** The decimal text of a natural number, as `str(n)` writes it. */
  function DecimalText(n: nat): (r: string)
    ensures |r| >= 1 && forall i :: 0 <= i < |r| ==> IsDigit(r[i])
  {
    if n < 10 then [('0' as int + n) as char]
    else DecimalText(n / 10) + [('0' as int + n % 10) as char]
  }

  lemma {:induction false} DecimalTextValue(n: nat)
    ensures DigitsValue(DecimalText(n)) == n
  {
    if n >= 10 {
      DecimalTextValue(n / 10);
      var d := DecimalText(n);
      assert d[..|d| - 1] == DecimalText(n / 10);
    }
  }

  lemma {:induction false} DropUnderscoresDigits(d: string)
    requires forall i :: 0 <= i < |d| ==> IsDigit(d[i])
    ensures DropUnderscores(d) == d
  {
    if d != [] {
      DropUnderscoresDigits(d[1..]);
      assert [d[0]] + d[1..] == d;
    }
  }

  /** A plain run of ASCII digits is valid `int()` syntax and keeps its
      characters once underscores are dropped. */
  lemma DigitsSyntax(d: string)
    requires |d| >= 1 && forall i :: 0 <= i < |d| ==> IsDigit(d[i])
    ensures ValidDigits(d) && DropUnderscores(d) == d
    ensures Strip(d) == d && d[0] != '-' && d[0] != '+'
  {
    DropUnderscoresDigits(d);
    DigitsStrip(d);
  }

  lemma DigitsStrip(d: string)
    requires |d| >= 1 && IsDigit(d[0]) && IsDigit(d[|d| - 1])
    ensures Strip(d) == d
  {
    StripUnchanged(d);
  }

  /** `int()` reads a string of ASCII digits, with or without a minus
      sign, as the number the digits denote. */
  lemma ParseIntDigits(d: string)
    requires |d| >= 1 && forall i :: 0 <= i < |d| ==> IsDigit(d[i])
    ensures ParseInt(d) == Some(DigitsValue(d))
    ensures ParseInt("-" + d) == Some(-(DigitsValue(d) as int))
  {
    DigitsSyntax(d);
    UnsignedDigits(d);
    var m := "-" + d;
    NegatedDigits(d, m);
    SignedDigits(d, m);
  }

  lemma UnsignedDigits(d: string)
    requires |d| >= 1 && forall i :: 0 <= i < |d| ==> IsDigit(d[i])
    requires ValidDigits(d) && DropUnderscores(d) == d && d[0] != '-' && d[0] != '+'
    ensures ParseSigned(d) == Some(DigitsValue(d))
  {
  }

  lemma SignedDigits(d: string, m: string)
    requires |d| >= 1 && forall i :: 0 <= i < |d| ==> IsDigit(d[i])
    requires ValidDigits(d) && DropUnderscores(d) == d
    requires |m| >= 1 && m[0] == '-' && m[1..] == d
    ensures ParseSigned(m) == Some(-(DigitsValue(d) as int))
  {
    assert m[0] != '+' && m[1..] == d;
  }

  lemma NegatedDigits(d: string, m: string)
    requires |d| >= 1 && forall i :: 0 <= i < |d| ==> IsDigit(d[i])
    requires m == "-" + d
    ensures Strip(m) == m && m[0] == '-' && m[1..] == d
  {
    assert m[|m| - 1] == d[|d| - 1];
    assert !IsSpace(m[|m| - 1]);
    StripUnchanged(m);
  }

  /** `int()` reads back what `str()` writes for a natural number; with a
      minus sign in front it reads the negation (`ParseIntDigits`). */
  lemma ParseIntDecimal(n: nat)
    ensures ParseInt(DecimalText(n)) == Some(n)
  {
    DecimalTextValue(n);
    ParseIntDigits(DecimalText(n));
  }

  /** `[pair.split("=") for pair in segments]`, raising `ValueError` (as
      `dict()` does) when a segment does not split into exactly two parts. */
  function PairsOf(segments: seq<string>): (r: Result<seq<Item>>)
    ensures r.Success? <==> forall i :: 0 <= i < |segments| ==> |Split(segments[i], '=')| == 2
    ensures r.Failure? ==> r.exc == ValueError
    ensures r.Success? ==> |r.value| == |segments|
    ensures r.Success? ==> forall i :: 0 <= i < |segments| ==>
              Split(segments[i], '=') == [r.value[i].0, r.value[i].1]
  {
    if segments == [] then Success([])
    else
      var parts := Split(segments[0], '=');
      if |parts| != 2 then Failure(ValueError)
      else match PairsOf(segments[1..])
        case Failure(e) => Failure(e)
        case Success(rest) => Success([(parts[0], parts[1])] + rest)
  }

  /** `dict(pairs)`: every key of the pairs, each bound to a value. */
  function Dict(pairs: seq<Item>): (m: map<string, string>)
    ensures forall k :: k in m <==> exists i :: 0 <= i < |pairs| && pairs[i].0 == k
  {
    if pairs == [] then map[]
    else Dict(pairs[..|pairs| - 1])[pairs[|pairs| - 1].0 := pairs[|pairs| - 1].1]
  }

  /** In `dict(pairs)` a key holds the value of its last pair: later
      duplicates overwrite earlier ones. */
  lemma {:induction false} DictLastWins(pairs: seq<Item>, i: nat)
    requires i < |pairs|
    requires forall j :: i < j < |pairs| ==> pairs[j].0 != pairs[i].0
    ensures pairs[i].0 in Dict(pairs) && Dict(pairs)[pairs[i].0] == pairs[i].1
  {
    if i < |pairs| - 1 {
      var init := pairs[..|pairs| - 1];
      assert init[i] == pairs[i];
      DictLastWins(init, i);
    }
  }

  /** The parsed dictionary, with `vk_user_id` replaced by its integer. */
  function WithUserId(d: map<string, string>, n: int): (m: map<string, Value>)
    ensures m.Keys == d.Keys
  {
    map k | k in d :: if k == "vk_user_id" then Int(n) else Str(d[k])
  }

  /** `parse_query_string`: splits on `&`, splits every segment on `=`,
      builds a dictionary and turns `vk_user_id` into an integer. */
  function ParseQueryString(qs: string): (r: Result<map<string, Value>>)
    ensures (exists seg :: seg in Split(qs, '&') && CountChar(seg, '=') != 1) ==> r == Failure(ValueError)
    ensures r.Success? ==> forall seg :: seg in Split(qs, '&') ==> CountChar(seg, '=') == 1
    ensures r.Success? ==> "vk_user_id" in r.value && r.value["vk_user_id"].Int?
    ensures r.Success? ==> forall k :: k in r.value && k != "vk_user_id" ==> r.value[k].Str?
  {
    var segments := Split(qs, '&');
    assert forall seg :: seg in segments ==> |Split(seg, '=')| == CountChar(seg, '=') + 1 by {
      forall seg | seg in segments ensures |Split(seg, '=')| == CountChar(seg, '=') + 1 {
        SplitCount(seg, '=');
      }
    }
    match PairsOf(segments)
    case Failure(e) => Failure(e)
    case Success(pairs) =>
      var d := Dict(pairs);
      if "vk_user_id" !in d then Failure(KeyError)
      else match ParseInt(d["vk_user_id"])
        case None => Failure(ValueError)
        case Some(n) => Success(WithUserId(d, n))
  }

  /** A key or value free of the two separators. */
  predicate Plain(s: string)
  {
    '&' !in s && '=' !in s
  }

  /** `key=value` segments joined with `&`. */
  function QueryText(pairs: seq<Item>): string
  {
    Join(Segments(pairs), '&')
  }

  function Segments(pairs: seq<Item>): (r: seq<string>)
    ensures |r| == |pairs|
    ensures forall i :: 0 <= i < |pairs| ==> r[i] == pairs[i].0 + "=" + pairs[i].1
  {
    if pairs == [] then [] else [pairs[0].0 + "=" + pairs[0].1] + Segments(pairs[1..])
  }

  lemma {:induction false} PairsOfSegments(pairs: seq<Item>)
    requires forall i :: 0 <= i < |pairs| ==> Plain(pairs[i].0) && Plain(pairs[i].1)
    ensures PairsOf(Segments(pairs)) == Success(pairs)
  {
    if pairs != [] {
      var k, v := pairs[0].0, pairs[0].1;
      SplitFirst(k, v, '=');
      SplitFree(v, '=');
      assert k + "=" + v == k + ['='] + v;
      PairsOfSegments(pairs[1..]);
      assert Segments(pairs)[1..] == Segments(pairs[1..]);
      assert [(k, v)] + pairs[1..] == pairs;
    }
  }

  /** Parsing a query string built from plain pairs gives back their
      dictionary, with `vk_user_id` read as the number it spells. */
  lemma ParseQueryTextRoundTrip(pairs: seq<Item>, n: nat)
    requires |pairs| >= 1
    requires forall i :: 0 <= i < |pairs| ==> Plain(pairs[i].0) && Plain(pairs[i].1)
    requires "vk_user_id" in Dict(pairs) && Dict(pairs)["vk_user_id"] == DecimalText(n)
    ensures ParseQueryString(QueryText(pairs)) == Success(WithUserId(Dict(pairs), n))
  {
    var segs := Segments(pairs);
    forall p | p in segs ensures '&' !in p {
      var i :| 0 <= i < |segs| && segs[i] == p;
      assert p == pairs[i].0 + "=" + pairs[i].1;
    }
    SplitJoin(segs, '&');
    PairsOfSegments(pairs);
    ParseIntDecimal(n);
  }
}
