/**
 * Edges: a source, a target and a weight. Weights are integers here (the
 * library uses double precision). Edges compare by weight alone and print as
 * "source -> target".
 */
module Edges {

  datatype Edge = Edge(source: int, target: int, weight: int)

  /** The constructor takes the target first and the source second. */
  function NewEdge(target: int, source: int, weight: int): (e: Edge)
    ensures e.source == source && e.target == target && e.weight == weight
  {
    Edge(source, target, weight)
  }

  /** -1, 0 or 1 as this edge's weight is below, equal to or above the other's. */
  function CompareTo(e: Edge, other: Edge): (r: int)
    ensures r == -1 <==> e.weight < other.weight
    ensures r == 1 <==> e.weight > other.weight
    ensures r == 0 <==> e.weight == other.weight
  {
    if e.weight < other.weight then -1
    else if e.weight > other.weight then 1
    else 0
  }

  /** CompareTo is a total preorder on weights that ignores the endpoints. */
  lemma CompareToIsPreorder(a: Edge, b: Edge, c: Edge)
    ensures CompareTo(a, a) == 0
    ensures CompareTo(a, b) == -CompareTo(b, a)
    ensures CompareTo(a, b) <= 0 && CompareTo(b, c) <= 0 ==> CompareTo(a, c) <= 0
    ensures forall s, t :: CompareTo(a.(source := s, target := t), b) == CompareTo(a, b)
  {
  }

  function DigitChar(d: int): char
    requires 0 <= d < 10
  {
    "0123456789"[d]
  }

  predicate IsDigit(c: char)
  {
    '0' <= c <= '9'
  }

  /** Decimal digits of a natural number, most significant first, without leading zeros. */
  function NatToString(n: nat): (s: string)
    ensures |s| > 0 && forall k :: 0 <= k < |s| ==> IsDigit(s[k])
    decreases n
  {
    if n < 10 then [DigitChar(n)] else NatToString(n / 10) + [DigitChar(n % 10)]
  }

  /** The decimal rendering of an integer, with a leading '-' when negative. */
  function IntToString(i: int): (s: string)
    ensures |s| > 0 && forall k :: 0 <= k < |s| ==> s[k] != ' '
  {
    if i < 0 then "-" + NatToString(-i) else NatToString(i)
  }

  /** The value of a string of decimal digits. */
  function ParseNat(s: string): nat
    decreases |s|
  {
    if |s| == 0 then 0
    else ParseNat(s[..|s| - 1]) * 10 + (if IsDigit(s[|s| - 1]) then (s[|s| - 1] as int - '0' as int) else 0)
  }

  lemma {:induction false} ParseNatToString(n: nat)
    ensures ParseNat(NatToString(n)) == n
    decreases n
  {
    var s := NatToString(n);
    if n >= 10 {
      ParseNatToString(n / 10);
      assert s[..|s| - 1] == NatToString(n / 10);
    }
  }

  /** The value of an optionally signed string of decimal digits. */
  function ParseInt(s: string): int
  {
    if |s| > 0 && s[0] == '-' then -(ParseNat(s[1..]) as int) else ParseNat(s)
  }

  /** Parsing a rendering gives back the integer. */
  lemma ParseIntToString(i: int)
    ensures ParseInt(IntToString(i)) == i
  {
    var s := IntToString(i);
    if i < 0 {
      assert s[1..] == NatToString(-i);
      ParseNatToString(-i);
    } else {
      assert IsDigit(s[0]);
      ParseNatToString(i);
    }
  }

  /** Distinct integers render differently. */
  lemma IntToStringInjective(a: int, b: int)
    requires IntToString(a) == IntToString(b)
    ensures a == b
  {
    ParseIntToString(a);
    ParseIntToString(b);
  }

  /** "source -> target"; the weight is not shown. */
  function ToString(e: Edge): (r: string)
    ensures var k := |IntToString(e.source)|;
            && |r| == k + 4 + |IntToString(e.target)|
            && r[..k] == IntToString(e.source) && r[k..k + 4] == " -> " && r[k + 4..] == IntToString(e.target)
  {
    IntToString(e.source) + " -> " + IntToString(e.target)
  }

  /** The first space of a rendering comes right after the source. */
  lemma FirstSpace(source: int, rest: string)
    ensures (IntToString(source) + rest)[..|IntToString(source)|] == IntToString(source)
    ensures forall k :: 0 <= k < |IntToString(source)| ==> (IntToString(source) + rest)[k] != ' '
  {
  }

  /** "s -> t" determines s and t. */
  lemma RenderingDeterminesEndpoints(s1: int, t1: int, s2: int, t2: int)
    requires IntToString(s1) + " -> " + IntToString(t1) == IntToString(s2) + " -> " + IntToString(t2)
    ensures s1 == s2 && t1 == t2
  {
    var sa, sb := IntToString(s1), IntToString(s2);
    var ta, tb := IntToString(t1), IntToString(t2);
    var r := sa + " -> " + ta;
    FirstSpace(s1, " -> " + ta);
    FirstSpace(s2, " -> " + tb);
    assert r == sa + (" -> " + ta) && r == sb + (" -> " + tb);
    assert r[|sa|] == ' ' && r[|sb|] == ' ';
    assert |sa| == |sb|;
    assert sa == r[..|sa|] == sb;
    assert ta == r[|sa| + 4..] == tb;
    IntToStringInjective(s1, s2);
    IntToStringInjective(t1, t2);
  }

  /** The rendering determines both endpoints. */
  lemma ToStringDeterminesEndpoints(a: Edge, b: Edge)
    requires ToString(a) == ToString(b)
    ensures a.source == b.source && a.target == b.target
  {
    RenderingDeterminesEndpoints(a.source, a.target, b.source, b.target);
  }
}
