/**
  The nodes of the machine/job bipartite graph. The source names them with
  strings "m<i>" and "j<j>", tells them apart with `startswith("j")` and
  recovers the index with `int(label[1:])`; the model uses a tagged union
  and proves that the string encoding it replaces is a faithful round trip.
 */
module Nodes {

  datatype Node = Machine(i: int) | Job(j: int)
  {
    function Index(): int
    {
      match this
      case Machine(i) => i
      case Job(j) => j
    }
  }

  function Digit(d: nat): char
    requires d < 10
  {
    "0123456789"[d]
  }

  function DigitValue(c: char): nat
  {
    if '0' <= c <= '9' then (c - '0') as nat else 0
  }

  /** Python's `str` of a non-negative integer: decimal, no leading zeros. */
  function Decimal(k: nat): (s: string)
    ensures |s| >= 1
    decreases k
  {
    if k < 10 then [Digit(k)] else Decimal(k / 10) + [Digit(k % 10)]
  }

  /** Python's `int` of a string of decimal digits. */
  function ParseDecimal(s: string): nat
    decreases |s|
  {
    if s == [] then 0 else ParseDecimal(s[..|s| - 1]) * 10 + DigitValue(s[|s| - 1])
  }

  /** Parsing what `str` printed gives the number back. */
  lemma {:induction false} DecimalRoundTrip(k: nat)
    ensures ParseDecimal(Decimal(k)) == k
    decreases k
  {
    if k >= 10 {
      var s := Decimal(k);
      assert s[..|s| - 1] == Decimal(k / 10);
      DecimalRoundTrip(k / 10);
    }
  }

  /** `f"m{i}"` for machines and `f"j{j}"` for jobs. */
  function Label(u: Node): string
    requires u.Index() >= 0
  {
    match u
    case Machine(i) => "m" + Decimal(i)
    case Job(j) => "j" + Decimal(j)
  }

  /** `label.startswith("j")`. */
  predicate IsJobLabel(name: string)
  {
    |name| > 0 && name[0] == 'j'
  }

  /** `int(label[1:])`. */
  function LabelIndex(name: string): int
    requires |name| >= 1
  {
    ParseDecimal(name[1..])
  }

  /** The label of a node says whether it is a job, and slicing off the
      prefix recovers the node's index. */
  lemma LabelRoundTrip(u: Node)
    requires u.Index() >= 0
    ensures |Label(u)| >= 1
    ensures IsJobLabel(Label(u)) <==> u.Job?
    ensures LabelIndex(Label(u)) == u.Index()
  {
    var digits := Decimal(u.Index());
    assert Label(u)[1..] == digits;
    DecimalRoundTrip(u.Index());
  }

  /** Distinct nodes have distinct labels, so a string-keyed graph and a
      node-keyed graph have the same shape. */
  lemma LabelInjective(u: Node, v: Node)
    requires u.Index() >= 0 && v.Index() >= 0
    ensures Label(u) == Label(v) ==> u == v
  {
    LabelRoundTrip(u);
    LabelRoundTrip(v);
  }
}
