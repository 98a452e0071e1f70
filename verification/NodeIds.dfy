/** Maelstrom node names ("n0", "n1", ...) and the 1-based ids that OmniPaxos uses. */
module NodeIds {
  import opened Values

  const U64_MAX: int := 0xFFFF_FFFF_FFFF_FFFF

  /** An id OmniPaxos hands out: positive, 64 bits. */
  type OpId = id: int | 1 <= id <= U64_MAX witness 1

  function Digit(d: int): char
    requires 0 <= d < 10
  {
    '0' + d as char
  }

  function DigitValue(c: char): Option<nat> {
    if '0' <= c <= '9' then Some((c - '0') as nat) else None
  }

  /** Decimal notation without leading zeros. */
  function Decimal(n: nat): string {
    if n < 10 then [Digit(n)] else Decimal(n / 10) + [Digit(n % 10)]
  }

  function ParseDigits(s: string): Option<nat> {
    if s == [] then Some(0)
    else
      match (ParseDigits(s[..|s| - 1]), DigitValue(s[|s| - 1]))
      case (Some(high), Some(low)) => Some(10 * high + low)
      case _ => None
  }

  /** Parsing of an unsigned 64-bit integer: digits, at least one, after an optional plus sign. */
  function ParseU64(s: string): Option<nat> {
    var digits := if s != [] && s[0] == '+' then s[1..] else s;
    if digits == [] then None
    else
      match ParseDigits(digits)
      case Some(n) => if n <= U64_MAX then Some(n) else None
      case None => None
  }

  /** The OmniPaxos id of a node name; `None` where the node refuses to start. */
  function ToOpId(name: string): Option<OpId> {
    if name == [] || name[0] != 'n' then None
    else
      match ParseU64(name[1..])
      case Some(n) => if n + 1 <= U64_MAX then Some(n + 1) else None
      case None => None
  }

  /** The node name of an OmniPaxos id. */
  function ToMaelstrom(id: OpId): string {
    "n" + Decimal(id - 1)
  }

  /** The decimal notation that `Decimal` itself would use. */
  predicate CanonicalDigits(s: string) {
    s != [] && (forall i :: 0 <= i < |s| ==> '0' <= s[i] <= '9') && (|s| > 1 ==> s[0] != '0')
  }

  predicate Canonical(name: string) {
    name != [] && name[0] == 'n' && CanonicalDigits(name[1..])
  }

  lemma {:induction false} DecimalCanonical(n: nat)
    ensures CanonicalDigits(Decimal(n))
    ensures n > 0 ==> Decimal(n)[0] != '0'
  {
    if n >= 10 {
      DecimalCanonical(n / 10);
    }
  }

  lemma {:induction false} DecimalParses(n: nat)
    ensures ParseDigits(Decimal(n)) == Some(n)
  {
    if n < 10 {
      assert Decimal(n)[..0] == [];
      assert ParseDigits([]) == Some(0);
    } else {
      DecimalParses(n / 10);
      assert Decimal(n)[..|Decimal(n)| - 1] == Decimal(n / 10);
    }
  }

  lemma {:induction false} CanonicalPositive(s: string)
    requires CanonicalDigits(s) && s[0] != '0'
    ensures ParseDigits(s).Some? && ParseDigits(s).value > 0
  {
    if |s| == 1 {
      assert ParseDigits(s[..0]) == Some(0);
    } else {
      CanonicalPositive(s[..|s| - 1]);
    }
  }

  lemma {:induction false} ParsedPrints(s: string)
    requires CanonicalDigits(s)
    ensures ParseDigits(s).Some? && Decimal(ParseDigits(s).value) == s
  {
    var front, last := s[..|s| - 1], s[|s| - 1];
    if |s| == 1 {
      assert ParseDigits(front) == Some(0);
      assert s == [last];
    } else {
      ParsedPrints(front);
      CanonicalPositive(front);
      assert s == front + [last];
    }
  }

  /** Printing then parsing gives the id back, for every id. */
  lemma PrintThenParse(id: OpId)
    ensures ToOpId(ToMaelstrom(id)) == Some(id)
  {
    DecimalCanonical(id - 1);
    DecimalParses(id - 1);
    assert ToMaelstrom(id)[1..] == Decimal(id - 1);
  }

  /** Parsing then printing gives the name back exactly when the name is in canonical form. */
  lemma ParseThenPrint(name: string)
    requires ToOpId(name).Some?
    ensures ToMaelstrom(ToOpId(name).value) == name <==> Canonical(name)
  {
    var id: int := ToOpId(name).value;
    DecimalCanonical(id - 1);
    assert ToMaelstrom(id)[1..] == Decimal(id - 1);
    if Canonical(name) {
      ParsedPrints(name[1..]);
      assert name == "n" + name[1..];
    }
  }

  /** Distinct canonical names have distinct ids. */
  lemma IdsDistinct(a: string, b: string)
    requires Canonical(a) && Canonical(b) && ToOpId(a).Some? && ToOpId(a) == ToOpId(b)
    ensures a == b
  {
    ParseThenPrint(a);
    ParseThenPrint(b);
  }

  /** Without canonical form two names can share an id. */
  lemma NamesCollide()
    ensures ToOpId("n1") == ToOpId("n01") == ToOpId("n+1") == Some(2)
  {
  }
}
