// The recursive-descent parser of cJSON as functions on a text and a position.
module JsonParser {
  import opened Bits
  import opened ByteStrings
  import opened JsonData
  import opened JsonNumber
  import opened JsonString

  // The first position from i on that holds no byte up to 32.
  function BlankEnd(text: Bytes, i: nat): (e: nat)
    requires i <= |text|
    ensures i <= e <= |text|
    decreases |text| - i
  {
    if i < |text| && text[i] <= SPACE then BlankEnd(text, i + 1) else i
  }

  // buffer_skip_whitespace: running off the end steps back by one, but never below i.
  function SkipBlanks(text: Bytes, i: nat): (r: nat)
    requires i <= |text|
    ensures i <= r <= |text|
    ensures i < |text| ==> r < |text|
  {
    if i == |text| then i
    else
      var e := BlankEnd(text, i);
      if e == |text| then e - 1 else e
  }

  predicate Has(text: Bytes, i: nat, b: byte) {
    i < |text| && text[i] == b
  }

  // strncmp against each of the words, when enough bytes are left

  predicate NullAt(text: Bytes, i: nat) {
    i + 4 <= |text| && text[i] == 110 && text[i + 1] == 117 && text[i + 2] == 108 && text[i + 3] == 108
  }

  predicate FalseAt(text: Bytes, i: nat) {
    i + 5 <= |text| && text[i] == 102 && text[i + 1] == 97 && text[i + 2] == 108 && text[i + 3] == 115 && text[i + 4] == 101
  }

  predicate TrueAt(text: Bytes, i: nat) {
    i + 4 <= |text| && text[i] == 116 && text[i + 1] == 114 && text[i + 2] == 117 && text[i + 3] == 101
  }

  // parse_value; the depth of the C code starts at 0, one below it reads as if the limit were higher.
  function ParseValue(text: Bytes, i: nat, depth: int): (r: Parsed<Json>)
    requires i <= |text|
    ensures r.Parsed? ==> i < r.next <= |text|
    decreases |text| - i, 3
  {
    if NullAt(text, i) then Parsed(Null, i + 4)
    else if FalseAt(text, i) then Parsed(False, i + 5)
    else if TrueAt(text, i) then Parsed(True, i + 4)
    else if Has(text, i, QUOTE) then
      match ParseString(text, i)
      case Rejected => Rejected
      case Parsed(s, next) => Parsed(Text(s), next)
    else if i < |text| && StartsNumber(text[i]) then ParseNumber(text, i)
    else if Has(text, i, OPEN_BRACKET) then ParseArray(text, i, depth)
    else if Has(text, i, OPEN_BRACE) then ParseObject(text, i, depth)
    else Rejected
  }

  function ParseArray(text: Bytes, i: nat, depth: int): (r: Parsed<Json>)
    requires Has(text, i, OPEN_BRACKET)
    ensures r.Parsed? ==> i < r.next <= |text| && r.value.Array?
    decreases |text| - i, 2
  {
    if depth >= NESTING_LIMIT then Rejected
    else
      var j := SkipBlanks(text, i + 1);
      if Has(text, j, CLOSE_BRACKET) then Parsed(Array([]), j + 1)
      else if j == |text| then Rejected
      else
        match ParseItems(text, j - 1, depth + 1)
        case Rejected => Rejected
        case Parsed(items, next) => Parsed(Array(items), next)
  }

  // The elements after the byte at k, which is the one before the first element or a comma.
  function ParseItems(text: Bytes, k: nat, depth: int): (r: Parsed<seq<Json>>)
    requires k < |text|
    ensures r.Parsed? ==> k < r.next <= |text| && r.value != []
    decreases |text| - k, 1
  {
    match ParseElement(text, k, depth)
    case Rejected => Rejected
    case Parsed(item, s) =>
      if Has(text, s, COMMA) then
        match ParseItems(text, s, depth)
        case Rejected => Rejected
        case Parsed(items, next) => Parsed([item] + items, next)
      else if Has(text, s, CLOSE_BRACKET) then Parsed([item], s + 1)
      else Rejected
  }

  // The value after the byte at k, with the blanks on both of its sides.
  function ParseElement(text: Bytes, k: nat, depth: int): (r: Parsed<Json>)
    requires k < |text|
    ensures r.Parsed? ==> k < r.next <= |text|
    decreases |text| - k, 0
  {
    match ParseValue(text, SkipBlanks(text, k + 1), depth)
    case Rejected => Rejected
    case Parsed(item, after) => Parsed(item, SkipBlanks(text, after))
  }

  function ParseObject(text: Bytes, i: nat, depth: int): (r: Parsed<Json>)
    requires Has(text, i, OPEN_BRACE)
    ensures r.Parsed? ==> i < r.next <= |text| && r.value.Object?
    decreases |text| - i, 2
  {
    if depth >= NESTING_LIMIT then Rejected
    else
      var j := SkipBlanks(text, i + 1);
      if Has(text, j, CLOSE_BRACE) then Parsed(Object([]), j + 1)
      else if j == |text| then Rejected
      else
        match ParseMembers(text, j - 1, depth + 1)
        case Rejected => Rejected
        case Parsed(members, next) => Parsed(Object(members), next)
  }

  function ParseMembers(text: Bytes, k: nat, depth: int): (r: Parsed<seq<Member>>)
    requires k < |text|
    ensures r.Parsed? ==> k < r.next <= |text| && r.value != []
    decreases |text| - k, 1
  {
    match ParseMember(text, k, depth)
    case Rejected => Rejected
    case Parsed(member, s) =>
      if Has(text, s, COMMA) then
        match ParseMembers(text, s, depth)
        case Rejected => Rejected
        case Parsed(members, next) => Parsed([member] + members, next)
      else if Has(text, s, CLOSE_BRACE) then Parsed([member], s + 1)
      else Rejected
  }

  // A name, a colon and a value, with the blanks around them.
  function ParseMember(text: Bytes, k: nat, depth: int): (r: Parsed<Member>)
    requires k < |text|
    ensures r.Parsed? ==> k < r.next <= |text|
    decreases |text| - k, 0
  {
    if k + 1 >= |text| then Rejected
    else
      match ParseName(text, k)
      case Rejected => Rejected
      case Parsed(name, c) =>
        match ParseElement(text, c, depth)
        case Rejected => Rejected
        case Parsed(value, s) => Parsed(Member(name, value), s)
  }

  // The name after the byte at k and the position of the colon after it.
  function ParseName(text: Bytes, k: nat): (r: Parsed<Bytes>)
    requires k + 1 < |text|
    ensures r.Parsed? ==> k < r.next < |text|
  {
    match ParseString(text, SkipBlanks(text, k + 1))
    case Rejected => Rejected
    case Parsed(name, after) =>
      var c := SkipBlanks(text, after);
      if Has(text, c, COLON) then Parsed(name, c) else Rejected
  }

  // ---- the entry points ----

  const BOM: Bytes := [0xEF, 0xBB, 0xBF]

  // skip_utf8_bom looks for the mark only when at least five bytes are there.
  function SkipBom(text: Bytes): (i: nat)
    ensures i <= |text|
  {
    if |text| > 4 && text[..3] == BOM then 3 else 0
  }

  // cJSON_ParseWithLengthOpts: the tree and the position where reading stopped.
  function ParseWithLength(text: Bytes, requireTerminator: bool): (r: Parsed<Json>)
    ensures r.Parsed? ==> r.next <= |text|
  {
    if text == [] then Rejected
    else
      match ParseValue(text, SkipBlanks(text, SkipBom(text)), 0)
      case Rejected => Rejected
      case Parsed(value, next) =>
        if !requireTerminator then Parsed(value, next)
        else
          var end := SkipBlanks(text, next);
          if Has(text, end, 0) then Parsed(value, end) else Rejected
  }

  // cJSON_ParseWithOpts: the length of a C string counts its terminator.
  function ParseCString(s: Bytes, requireTerminator: bool): Parsed<Json> {
    ParseWithLength(CString(s) + [0], requireTerminator)
  }
}
