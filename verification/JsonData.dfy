// The values that cJSON reads and writes.
module JsonData {
  import opened Bits
  import opened ByteStrings

  // A cJSON tree as a value; the children of an array or object are the nodes of the list that
  // starts at its child pointer. Strings hold the bytes that C sees before the terminator;
  // numbers are exact, the rounding of a double is not modelled.
  datatype Json =
    | Null
    | False
    | True
    | Number(number: real)
    | Text(text: Bytes)
    | Array(items: seq<Json>)
    | Object(members: seq<Member>)

  datatype Member = Member(name: Bytes, value: Json)

  const NESTING_LIMIT: nat := 1000
  const INT_MAX: int := 0x7FFF_FFFF
  const INT_MIN: int := -0x8000_0000

  const TAB: byte := 9
  const NEWLINE: byte := 10
  const SPACE: byte := 32
  const QUOTE: byte := 34
  const COMMA: byte := 44
  const MINUS: byte := 45
  const SLASH: byte := 47
  const COLON: byte := 58
  const OPEN_BRACKET: byte := 91
  const BACKSLASH: byte := 92
  const CLOSE_BRACKET: byte := 93
  const LETTER_U: byte := 117
  const OPEN_BRACE: byte := 123
  const CLOSE_BRACE: byte := 125

  const NULL_TEXT: Bytes := [110, 117, 108, 108]
  const FALSE_TEXT: Bytes := [102, 97, 108, 115, 101]
  const TRUE_TEXT: Bytes := [116, 114, 117, 101]

  // The int that cJSON keeps beside a number: cut off at the ends of the type and toward zero.
  function ToInt(d: real): int {
    if d >= INT_MAX as real then INT_MAX
    else if d <= INT_MIN as real then INT_MIN
    else if d >= 0.0 then d.Floor
    else -(-d).Floor
  }

  lemma ToIntKeeps(n: int, d: real)
    requires INT_MIN <= n <= INT_MAX && d == n as real
    ensures ToInt(d) == n
  {
    if d < 0.0 {
      Opposite(d, -d);
    }
  }

  // An integer of the type is kept as it is, any other number inside its range is cut off toward zero, and what
  // is beyond an end of the range becomes that end.
  lemma ToIntCuts(d: real)
    ensures d.Floor as real == d && -2147483648 <= d.Floor <= 2147483647 ==> ToInt(d) == d.Floor
    ensures 0.0 <= d <= 2147483647.0 ==> ToInt(d) as real <= d < ToInt(d) as real + 1.0
    ensures -2147483648.0 <= d < 0.0 ==> ToInt(d) as real - 1.0 < d <= ToInt(d) as real
    ensures (d > 2147483647.0 ==> ToInt(d) == 2147483647) && (d < -2147483648.0 ==> ToInt(d) == -2147483648)
  {
    if INT_MIN as real < d < 0.0 {
      Opposite(d, -d);
    }
  }

  lemma Opposite(d: real, e: real)
    requires e == -d
    ensures e.Floor as real <= e < e.Floor as real + 1.0 && (d.Floor as real == d ==> d.Floor == -e.Floor)
  {
    if d.Floor as real == d {
      assert e == (-d.Floor) as real;
    }
  }

  // How deeply arrays and objects are nested in a tree.
  function Nesting(t: Json): nat
    decreases t, 0
  {
    match t
    case Array(items) => 1 + ItemsNesting(items, 0)
    case Object(members) => 1 + MembersNesting(members, 0)
    case _ => 0
  }

  function ItemsNesting(items: seq<Json>, j: nat): nat
    requires j <= |items|
    decreases items, |items| - j
  {
    if j == |items| then 0 else Max(Nesting(items[j]), ItemsNesting(items, j + 1))
  }

  function MembersNesting(members: seq<Member>, j: nat): nat
    requires j <= |members|
    decreases members, |members| - j
  {
    if j == |members| then 0 else Max(Nesting(members[j].value), MembersNesting(members, j + 1))
  }

  lemma {:induction false} MemberNesting(members: seq<Member>, j: nat, k: nat)
    requires j <= k < |members|
    ensures Nesting(members[k].value) <= MembersNesting(members, j)
    decreases k - j
  {
    if j < k {
      MemberNesting(members, j + 1, k);
    }
  }

  // Every number is a 32-bit integer.
  predicate Integers(t: Json)
    decreases t, 0
  {
    match t
    case Number(v) => v.Floor as real == v && INT_MIN <= v.Floor <= INT_MAX
    case Array(items) => IntegerItems(items, 0)
    case Object(members) => IntegerMembers(members, 0)
    case _ => true
  }

  predicate IntegerItems(items: seq<Json>, j: nat)
    requires j <= |items|
    decreases items, |items| - j
  {
    j < |items| ==> Integers(items[j]) && IntegerItems(items, j + 1)
  }

  predicate IntegerMembers(members: seq<Member>, j: nat)
    requires j <= |members|
    decreases members, |members| - j
  {
    j < |members| ==> Integers(members[j].value) && IntegerMembers(members, j + 1)
  }
}
