/**
 * decodeOracleRequestData: the OracleRequest `data` field is a `0x`-prefixed
 * hex string holding a run of CBOR items, read two at a time as key and
 * value into a plain JavaScript object.
 *
 * The hex-to-bytes conversion and the CBOR decoder are one parameter,
 * `decodeAll`, from the hex text to the decoded items or `None` when the
 * decoder throws.
 */
module Decode {
  import opened Wrappers
  import opened Events

  /** A decoded CBOR item of the kinds the oracle payload carries. */
  datatype Term = Int(i: int) | Text(s: string) | Bool(b: bool) | Null

  /** A property value of the decoded object: `undefined` when a key has no partner. */
  datatype Value = Defined(term: Term) | Undefined

  /** The decoded object, by property name. */
  type Object = map<string, Value>

  /** The CBOR decoder applied to the bytes of a hex string; `None` when it throws. */
  type Decoder = string -> Option<seq<Term>>

  /** The number a string of decimal digits denotes, most significant first: `parseInt` on digits. */
  function DecimalValue(s: string): nat
  {
    if s == [] then 0
    else
      var c := s[|s| - 1];
      10 * DecimalValue(s[..|s| - 1]) + (if '0' <= c <= '9' then (c - '0') as nat else 0)
  }

  /** The decimal digits of a natural number, most significant first. */
  function Digits(n: nat): (r: string)
    ensures |r| > 0
    ensures forall c :: c in r ==> '0' <= c <= '9'
    ensures DecimalValue(r) == n
    ensures n < 10 ==> |r| == 1
    ensures n >= 10 ==> r[0] != '0'
    decreases n
  {
    var d := ['0' + (n % 10) as char];
    if n < 10 then d else Digits(n / 10) + d
  }

  /** JavaScript's `String(t)`, the property name a term becomes when used as a key. */
  function PropertyKey(t: Term): string
  {
    match t
    case Int(i) => if i < 0 then "-" + Digits(-i) else Digits(i)
    case Text(s) => s
    case Bool(b) => if b then "true" else "false"
    case Null => "null"
  }

  /**
   * An integer key reads back as the integer: its digits denote its magnitude,
   * after a leading `-` exactly when it is negative.
   */
  lemma PropertyKeyOfInt(i: int)
    ensures i >= 0 ==> PropertyKey(Int(i)) == Digits(i) && DecimalValue(PropertyKey(Int(i))) == i
    ensures i < 0 ==> PropertyKey(Int(i)) == "-" + Digits(-i) && DecimalValue(PropertyKey(Int(i))[1..]) == -i
  {
    if i < 0 {
      NegativeKey(i);
    }
  }

  /** A negative key is a `-` followed by the digits of its magnitude. */
  lemma NegativeKey(i: int)
    requires i < 0
    ensures PropertyKey(Int(i)) == "-" + Digits(-i)
    ensures PropertyKey(Int(i))[1..] == Digits(-i)
  {
    var digits := Digits(-i);
    assert ("-" + digits)[1..] == digits;
  }

  /** Distinct integers become distinct property names, so distinct token ids name distinct files. */
  lemma IntKeysDistinct(a: int, b: int)
    requires a != b
    ensures PropertyKey(Int(a)) != PropertyKey(Int(b))
  {
    PropertyKeyOfInt(a);
    PropertyKeyOfInt(b);
    if a < 0 && b >= 0 {
      assert PropertyKey(Int(b))[0] in Digits(b);
    } else if a >= 0 && b < 0 {
      assert PropertyKey(Int(a))[0] in Digits(a);
    }
  }

  /** `data.slice(2)`: the first two characters, the `0x` prefix, are dropped. */
  function StripHexPrefix(data: string): (hex: string)
    ensures |data| >= 2 ==> |hex| == |data| - 2 && data == data[..2] + hex
    ensures |data| < 2 ==> hex == ""
  {
    if |data| >= 2 then data[2..] else ""
  }

  /** The item following the key at `j - 1`: `decodedData[j]`, `undefined` past the end. */
  function ValueAt(d: seq<Term>, j: nat): Value
  {
    if j < |d| then Defined(d[j]) else Undefined
  }

  /** The object after the first `k` steps of the stride-2 loop over `d`. */
  function PairsOf(d: seq<Term>, k: nat): Object
    requires 2 * k <= |d| + 1
  {
    if k == 0 then map[]
    else PairsOf(d, k - 1)[PropertyKey(d[2 * k - 2]) := ValueAt(d, 2 * k - 1)]
  }

  /** The object the whole loop builds: one step per key position. */
  function Pairwise(d: seq<Term>): Object
  {
    PairsOf(d, (|d| + 1) / 2)
  }

  /** One of the first `k` key positions of `d` names `key`. */
  ghost predicate KeyAmong(d: seq<Term>, k: nat, key: string) {
    exists m :: 0 <= m < k && 2 * m < |d| && PropertyKey(d[2 * m]) == key
  }

  /**
   * decodeOracleRequestData: strip the prefix, decode, and fold the items
   * pairwise into an object; a decoder failure is returned as `None`.
   */
  method DecodeOracleRequestData(event: OracleEvent, decodeAll: Decoder) returns (r: Option<Object>)
    ensures r.None? <==> decodeAll(StripHexPrefix(event.data)).None?
    ensures r.Some? ==> r.value == Pairwise(decodeAll(StripHexPrefix(event.data)).value)
  {
    var decodedData := decodeAll(StripHexPrefix(event.data));
    if decodedData.None? {
      return None;
    }
    var d := decodedData.value;
    var decodedObject: Object := map[];
    var i := 0;
    while i < |d|
      invariant i % 2 == 0 && i <= |d| + 1
      invariant decodedObject == PairsOf(d, i / 2)
    {
      decodedObject := decodedObject[PropertyKey(d[i]) := ValueAt(d, i + 1)];
      i := i + 2;
    }
    return Some(decodedObject);
  }

  /** A key is present exactly when some key position of the items names it. */
  lemma {:induction false} PairsOfKeys(d: seq<Term>, k: nat, key: string)
    requires 2 * k <= |d| + 1
    ensures key in PairsOf(d, k) <==> KeyAmong(d, k, key)
  {
    if k > 0 {
      PairsOfKeys(d, k - 1, key);
      if KeyAmong(d, k, key) && !KeyAmong(d, k - 1, key) {
        var m :| 0 <= m < k && 2 * m < |d| && PropertyKey(d[2 * m]) == key;
        assert m == k - 1;
      }
      if KeyAmong(d, k - 1, key) {
        var m :| 0 <= m < k - 1 && 2 * m < |d| && PropertyKey(d[2 * m]) == key;
        assert 0 <= m < k;
      }
    }
  }

  /**
   * A key maps to the item after its LAST key position: a later pair with the
   * same key overwrites an earlier one.
   */
  lemma {:induction false} PairsOfLastWins(d: seq<Term>, k: nat, m: nat)
    requires 2 * k <= |d| + 1
    requires m < k
    requires forall m' :: m < m' < k ==> PropertyKey(d[2 * m']) != PropertyKey(d[2 * m])
    ensures PropertyKey(d[2 * m]) in PairsOf(d, k)
    ensures PairsOf(d, k)[PropertyKey(d[2 * m])] == ValueAt(d, 2 * m + 1)
  {
    if m < k - 1 {
      assert PropertyKey(d[2 * (k - 1)]) != PropertyKey(d[2 * m]);
      PairsOfLastWins(d, k - 1, m);
    }
  }

  /**
   * The item at key position `2 * m` is a key of the decoded object, mapped to
   * the item after it (`undefined` past the end), when no later key position
   * repeats it.
   */
  lemma PairwiseLookup(d: seq<Term>, m: nat)
    requires 2 * m < |d|
    requires forall m' :: m < m' && 2 * m' < |d| ==> PropertyKey(d[2 * m']) != PropertyKey(d[2 * m])
    ensures PropertyKey(d[2 * m]) in Pairwise(d)
    ensures Pairwise(d)[PropertyKey(d[2 * m])] == ValueAt(d, 2 * m + 1)
  {
    PairsOfLastWins(d, (|d| + 1) / 2, m);
  }

  /** Only the items at even positions `2 * m` become keys. */
  lemma PairwiseKeys(d: seq<Term>, key: string)
    ensures key in Pairwise(d) <==> exists m :: 0 <= m && 2 * m < |d| && PropertyKey(d[2 * m]) == key
  {
    var k := (|d| + 1) / 2;
    PairsOfKeys(d, k, key);
    if exists m :: 0 <= m && 2 * m < |d| && PropertyKey(d[2 * m]) == key {
      var m :| 0 <= m && 2 * m < |d| && PropertyKey(d[2 * m]) == key;
      assert m < k;
    }
  }

  /** An odd number of items does not fail: the last key maps to `undefined`. */
  lemma PairwiseOddLength(d: seq<Term>)
    requires |d| % 2 == 1
    ensures PropertyKey(d[|d| - 1]) in Pairwise(d)
    ensures Pairwise(d)[PropertyKey(d[|d| - 1])] == Undefined
  {
    PairwiseLookup(d, |d| / 2);
  }

  /** With an even number of items every key has a defined value. */
  lemma {:induction false} PairsOfEvenDefined(d: seq<Term>, k: nat)
    requires 2 * k <= |d| && |d| % 2 == 0
    ensures forall key :: key in PairsOf(d, k) ==> PairsOf(d, k)[key].Defined?
  {
    if k > 0 {
      PairsOfEvenDefined(d, k - 1);
    }
  }

  /** An even number of items leaves no key `undefined`. */
  lemma PairwiseEvenLength(d: seq<Term>)
    requires |d| % 2 == 0
    ensures forall key :: key in Pairwise(d) ==> Pairwise(d)[key].Defined?
  {
    PairsOfEvenDefined(d, |d| / 2);
  }

  /** The item run of a list of (key, value) pairs: what an encoder of such pairs writes. */
  function Interleave(pairs: seq<(Term, Term)>): (d: seq<Term>)
    ensures |d| == 2 * |pairs|
    ensures forall i :: 0 <= i < |pairs| ==> d[2 * i] == pairs[i].0 && d[2 * i + 1] == pairs[i].1
  {
    if pairs == [] then []
    else [pairs[0].0, pairs[0].1] + Interleave(pairs[1..])
  }

  /**
   * Folding an interleaved run of pairs with distinct property names gives
   * back each pair's value under its key.
   */
  lemma {:induction false} PairwiseInterleave(pairs: seq<(Term, Term)>, i: nat)
    requires i < |pairs|
    requires forall a, b :: 0 <= a < b < |pairs| ==> PropertyKey(pairs[a].0) != PropertyKey(pairs[b].0)
    ensures PropertyKey(pairs[i].0) in Pairwise(Interleave(pairs))
    ensures Pairwise(Interleave(pairs))[PropertyKey(pairs[i].0)] == Defined(pairs[i].1)
  {
    var d := Interleave(pairs);
    forall m | i < m && 2 * m < |d|
      ensures PropertyKey(d[2 * m]) != PropertyKey(d[2 * i])
    {
      assert d[2 * m] == pairs[m].0;
    }
    PairwiseLookup(d, i);
  }
}
