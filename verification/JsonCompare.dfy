// cJSON_Compare on trees as values: symmetric, and on trees with integers the equality of recursive maps,
// exactly if repeated keys have the same value.
module JsonCompare {
  import opened Bits
  import opened ByteStrings
  import opened JsonData

  // DBL_EPSILON, 2^-52
  const EPSILON: real := 1.0 / 4503599627370496.0

  function Abs(x: real): real {
    if x < 0.0 then -x else x
  }

  // compare_double, without rounding
  predicate CompareDouble(a: real, b: real) {
    var maxVal := if Abs(a) > Abs(b) then Abs(a) else Abs(b);
    Abs(a - b) <= maxVal * EPSILON
  }

  function ToLower(b: byte): byte {
    if 65 <= b <= 90 then b + 32 else b
  }

  function Lower(s: Bytes, j: nat): Bytes
    requires j <= |s|
    decreases |s| - j
  {
    if j == |s| then [] else [ToLower(s[j])] + Lower(s, j + 1)
  }

  // What a key is compared by: itself, or its lower-case form (case_insensitive_strcmp).
  function KeyOf(name: Bytes, caseSensitive: bool): Bytes {
    if caseSensitive then name else Lower(name, 0)
  }

  // The same letter, one of them in upper case (65 to 90) perhaps, or the same byte.
  predicate SameLetter(x: byte, y: byte) {
    x == y || (65 <= x <= 90 && y == x + 32) || (65 <= y <= 90 && x == y + 32)
  }

  ghost predicate SameLetters(a: Bytes, b: Bytes, caseSensitive: bool) {
    if caseSensitive then a == b else |a| == |b| && forall k :: 0 <= k < |a| ==> SameLetter(a[k], b[k])
  }

  lemma {:induction false} LowerAt(s: Bytes, j: nat)
    requires j <= |s|
    ensures |Lower(s, j)| == |s| - j && forall k :: 0 <= k < |s| - j ==> Lower(s, j)[k] == ToLower(s[j + k])
    decreases |s| - j
  {
    if j < |s| {
      LowerAt(s, j + 1);
    }
  }

  // Keys are the same, in either mode, exactly if their letters are.
  lemma KeysAlike(a: Bytes, b: Bytes, caseSensitive: bool)
    ensures KeyOf(a, caseSensitive) == KeyOf(b, caseSensitive) <==> SameLetters(a, b, caseSensitive)
  {
    LowerAt(a, 0);
    LowerAt(b, 0);
    if !caseSensitive && KeyOf(a, false) == KeyOf(b, false) {
      forall k | 0 <= k < |a| ensures SameLetter(a[k], b[k]) {
        assert Lower(a, 0)[k] == ToLower(a[0 + k]) && Lower(b, 0)[k] == ToLower(b[0 + k]);
      }
    }
  }

  // get_object_item: the first member with the key, from index j on.
  function FindMember(members: seq<Member>, key: Bytes, caseSensitive: bool, j: nat): (r: Option<nat>)
    requires j <= |members|
    ensures r.Some? ==> j <= r.value < |members| && KeyOf(members[r.value].name, caseSensitive) == key
    decreases |members| - j
  {
    if j == |members| then None
    else if KeyOf(members[j].name, caseSensitive) == key then Some(j)
    else FindMember(members, key, caseSensitive, j + 1)
  }

  // get_object_item on the keys of children, of which some may be missing: a search that heeds the case
  // ends at such a child, and one that does not passes over it.
  function FindKey(keys: seq<Option<Bytes>>, key: Bytes, caseSensitive: bool, j: nat): (r: Option<nat>)
    requires j <= |keys|
    ensures r.Some? ==> j <= r.value < |keys| && keys[r.value].Some? && KeyOf(keys[r.value].value, caseSensitive) == key
    decreases |keys| - j
  {
    if j == |keys| || (caseSensitive && keys[j] == None) then None
    else if keys[j].Some? && KeyOf(keys[j].value, caseSensitive) == key then Some(j)
    else FindKey(keys, key, caseSensitive, j + 1)
  }

  // With all keys present it finds the first member with the key.
  lemma {:induction false} FindsMember(keys: seq<Option<Bytes>>, members: seq<Member>, key: Bytes, caseSensitive: bool, j: nat)
    requires j <= |keys| == |members| && forall k :: 0 <= k < |keys| ==> keys[k] == Some(members[k].name)
    ensures FindKey(keys, key, caseSensitive, j) == FindMember(members, key, caseSensitive, j)
    decreases |keys| - j
  {
    if j < |keys| {
      FindsMember(keys, members, key, caseSensitive, j + 1);
    }
  }

  // A search finds the first key with the letters of the name; one that heeds the case goes past no missing key.
  lemma FindsFirst(keys: seq<Option<Bytes>>, name: Bytes, caseSensitive: bool, k: nat)
    ensures FindKey(keys, KeyOf(name, caseSensitive), caseSensitive, 0) == Some(k) <==>
      k < |keys| && keys[k].Some? && SameLetters(keys[k].value, name, caseSensitive)
      && forall i :: 0 <= i < k ==> if keys[i].Some? then !SameLetters(keys[i].value, name, caseSensitive) else !caseSensitive
  {
    FindsFrom(keys, name, caseSensitive, 0, k);
  }

  lemma {:induction false} FindsFrom(keys: seq<Option<Bytes>>, name: Bytes, caseSensitive: bool, j: nat, k: nat)
    requires j <= |keys|
    ensures FindKey(keys, KeyOf(name, caseSensitive), caseSensitive, j) == Some(k) <==>
      j <= k < |keys| && keys[k].Some? && SameLetters(keys[k].value, name, caseSensitive)
      && forall i :: j <= i < k ==> if keys[i].Some? then !SameLetters(keys[i].value, name, caseSensitive) else !caseSensitive
    decreases |keys| - j
  {
    if j < |keys| {
      if keys[j].Some? {
        KeysAlike(keys[j].value, name, caseSensitive);
      }
      FindsFrom(keys, name, caseSensitive, j + 1, k);
    }
  }

  // Two numbers count as equal if they differ by at most 2^-52 of the size of one of them.
  lemma CloseNumbers(a: real, b: real)
    ensures var d := (if a < b then b - a else a - b) * 4503599627370496.0;
      CompareDouble(a, b) <==> d <= a || d <= -a || d <= b || d <= -b
  {
    var m := if Abs(a) > Abs(b) then Abs(a) else Abs(b);
    assert m == m * EPSILON * 4503599627370496.0;
  }

  // cJSON_Compare of two different items
  predicate Compare(a: Json, b: Json, caseSensitive: bool)
    decreases Nesting(a) + Nesting(b), 0
  {
    match a
    case Null => b.Null?
    case False => b.False?
    case True => b.True?
    case Number(x) => b.Number? && CompareDouble(x, b.number)
    case Text(s) => b.Text? && s == b.text
    case Array(items) => b.Array? && CompareItems(items, b.items, 0, caseSensitive)
    case Object(members) =>
      b.Object? && Covers(members, 0, b.members, caseSensitive) && Covers(b.members, 0, members, caseSensitive)
  }

  // Element by element, until one of the arrays ends.
  predicate CompareItems(a: seq<Json>, b: seq<Json>, j: nat, caseSensitive: bool)
    requires j <= |a| && j <= |b|
    decreases ItemsNesting(a, j) + ItemsNesting(b, j) + 1, |a| - j
  {
    if j == |a| || j == |b| then |a| == |b|
    else Compare(a[j], b[j], caseSensitive) && CompareItems(a, b, j + 1, caseSensitive)
  }

  // Every member of a from index j on has one of b with its key and an equal value.
  predicate Covers(a: seq<Member>, j: nat, b: seq<Member>, caseSensitive: bool)
    requires j <= |a|
    decreases MembersNesting(a, j) + MembersNesting(b, 0) + 1, |a| - j
  {
    j < |a| ==> CoversOne(a, j, b, caseSensitive) && Covers(a, j + 1, b, caseSensitive)
  }

  predicate CoversOne(a: seq<Member>, j: nat, b: seq<Member>, caseSensitive: bool)
    requires j < |a|
    decreases MembersNesting(a, j) + MembersNesting(b, 0) + 1, 0
  {
    match FindMember(b, KeyOf(a[j].name, caseSensitive), caseSensitive, 0)
    case None => false
    case Some(k) =>
      MemberNesting(b, 0, k);
      Compare(a[j].value, b[k].value, caseSensitive)
  }

  // ---- symmetry, for all trees ----

  lemma {:induction false} CompareSymmetric(a: Json, b: Json, caseSensitive: bool)
    ensures Compare(a, b, caseSensitive) == Compare(b, a, caseSensitive)
    decreases a
  {
    if a.Array? && b.Array? {
      ItemsSymmetric(a.items, b.items, 0, caseSensitive);
    }
  }

  lemma {:induction false} ItemsSymmetric(a: seq<Json>, b: seq<Json>, j: nat, caseSensitive: bool)
    requires j <= |a| && j <= |b|
    ensures CompareItems(a, b, j, caseSensitive) == CompareItems(b, a, j, caseSensitive)
    decreases a, |a| - j
  {
    if j < |a| && j < |b| {
      CompareSymmetric(a[j], b[j], caseSensitive);
      ItemsSymmetric(a, b, j + 1, caseSensitive);
    }
  }

  // ---- the trees for which it is an equality ----

  // Recursive maps: what a tree stands for when the order of members does not matter.
  datatype Canon =
    | CNull
    | CFalse
    | CTrue
    | CNumber(n: int)
    | CText(text: Bytes)
    | CArray(items: seq<Canon>)
    | CObject(members: map<Bytes, Canon>)

  function CanonOf(t: Json, caseSensitive: bool): Canon
    decreases t, 0
  {
    match t
    case Null => CNull
    case False => CFalse
    case True => CTrue
    case Number(x) => CNumber(x.Floor)
    case Text(s) => CText(s)
    case Array(items) => CArray(CanonItems(items, 0, caseSensitive))
    case Object(members) => CObject(CanonMembers(members, 0, caseSensitive))
  }

  function CanonItems(items: seq<Json>, j: nat, caseSensitive: bool): seq<Canon>
    requires j <= |items|
    decreases items, |items| - j
  {
    if j == |items| then [] else [CanonOf(items[j], caseSensitive)] + CanonItems(items, j + 1, caseSensitive)
  }

  function CanonMembers(members: seq<Member>, j: nat, caseSensitive: bool): map<Bytes, Canon>
    requires j <= |members|
    decreases members, |members| - j
  {
    if j == |members| then map[]
    else CanonMembers(members, j + 1, caseSensitive)[KeyOf(members[j].name, caseSensitive) := CanonOf(members[j].value, caseSensitive)]
  }

  // Every member of every object has the value that its key has in the map.
  ghost predicate Consistent(t: Json, caseSensitive: bool)
    decreases t, 1
  {
    match t
    case Array(items) => forall k :: 0 <= k < |items| ==> Consistent(items[k], caseSensitive)
    case Object(members) => Agrees(members, CanonMembers(members, 0, caseSensitive), caseSensitive)
    case _ => true
  }

  ghost predicate Agrees(members: seq<Member>, m: map<Bytes, Canon>, caseSensitive: bool)
    decreases members, 1
  {
    forall k :: 0 <= k < |members| ==> AgreesOne(members[k], m, caseSensitive)
  }

  ghost predicate AgreesOne(member: Member, m: map<Bytes, Canon>, caseSensitive: bool)
    decreases member, 1
  {
    var key := KeyOf(member.name, caseSensitive);
    key in m && m[key] == CanonOf(member.value, caseSensitive) && Consistent(member.value, caseSensitive)
  }

  lemma CompareIntegers(m: int, n: int)
    requires INT_MIN <= m <= INT_MAX && INT_MIN <= n <= INT_MAX
    ensures CompareDouble(m as real, n as real) <==> m == n
  {
  }

  lemma {:induction false} IntegerItem(items: seq<Json>, j: nat, k: nat)
    requires j <= k < |items| && IntegerItems(items, j)
    ensures Integers(items[k])
    decreases k - j
  {
    if j < k {
      IntegerItem(items, j + 1, k);
    }
  }

  lemma {:induction false} IntegerMember(members: seq<Member>, j: nat, k: nat)
    requires j <= k < |members| && IntegerMembers(members, j)
    ensures Integers(members[k].value)
    decreases k - j
  {
    if j < k {
      IntegerMember(members, j + 1, k);
    }
  }

  // The map has the first member with each key.
  lemma {:induction false} MapHas(members: seq<Member>, j: nat, key: Bytes, caseSensitive: bool)
    requires j <= |members|
    ensures var m := CanonMembers(members, j, caseSensitive); var r := FindMember(members, key, caseSensitive, j);
      && (key in m <==> r.Some?)
      && (r.Some? ==> m[key] == CanonOf(members[r.value].value, caseSensitive))
    decreases |members| - j
  {
    if j < |members| {
      MapHas(members, j + 1, key, caseSensitive);
    }
  }

  // The map has the key of every member.
  lemma {:induction false} HasKey(members: seq<Member>, j: nat, k: nat, key: Bytes, caseSensitive: bool)
    requires j <= k < |members| && KeyOf(members[k].name, caseSensitive) == key
    ensures key in CanonMembers(members, j, caseSensitive)
    decreases k - j
  {
    if j < k {
      HasKey(members, j + 1, k, key, caseSensitive);
    }
  }

  // Maps with which each other's members agree are the same.
  lemma AgreesWithin(members: seq<Member>, m: map<Bytes, Canon>, n: map<Bytes, Canon>, caseSensitive: bool)
    requires m == CanonMembers(members, 0, caseSensitive) && Agrees(members, n, caseSensitive)
    ensures forall key :: key in m ==> key in n && m[key] == n[key]
  {
    forall key | key in m ensures key in n && m[key] == n[key] {
      MapHas(members, 0, key, caseSensitive);
      var k := FindMember(members, key, caseSensitive, 0).value;
      assert AgreesOne(members[k], n, caseSensitive);
    }
  }

  // On trees with integers cJSON_Compare is the equality of what they stand for, provided that both are
  // consistent; a tree that is not is equal to none, not even to itself.
  lemma {:induction false} CompareIsCanonical(a: Json, b: Json, caseSensitive: bool)
    requires Integers(a) && Integers(b)
    ensures Compare(a, b, caseSensitive) <==>
      CanonOf(a, caseSensitive) == CanonOf(b, caseSensitive) && Consistent(a, caseSensitive) && Consistent(b, caseSensitive)
    decreases Nesting(a) + Nesting(b), 0
  {
    match a
    case Number(x) =>
      if b.Number? {
        CompareIntegers(x.Floor, b.number.Floor);
      }
    case Array(items) =>
      if b.Array? {
        ItemsCanonical(items, b.items, 0, caseSensitive);
      }
    case Object(members) =>
      if b.Object? {
        var m, n := CanonMembers(members, 0, caseSensitive), CanonMembers(b.members, 0, caseSensitive);
        CoversIsAgreement(members, 0, b.members, n, caseSensitive);
        CoversIsAgreement(b.members, 0, members, m, caseSensitive);
        if Agrees(members, n, caseSensitive) && Agrees(b.members, m, caseSensitive) {
          AgreesWithin(members, m, n, caseSensitive);
          AgreesWithin(b.members, n, m, caseSensitive);
          assert m == n;
        }
      }
    case _ =>
  }

  lemma {:induction false} CanonLength(items: seq<Json>, j: nat, caseSensitive: bool)
    requires j <= |items|
    ensures |CanonItems(items, j, caseSensitive)| == |items| - j
    decreases |items| - j
  {
    if j < |items| {
      CanonLength(items, j + 1, caseSensitive);
    }
  }

  lemma {:induction false} ItemsCanonical(a: seq<Json>, b: seq<Json>, j: nat, caseSensitive: bool)
    requires j <= |a| && j <= |b| && IntegerItems(a, j) && IntegerItems(b, j)
    ensures CompareItems(a, b, j, caseSensitive) <==>
      && CanonItems(a, j, caseSensitive) == CanonItems(b, j, caseSensitive)
      && (forall k :: j <= k < |a| ==> Consistent(a[k], caseSensitive))
      && (forall k :: j <= k < |b| ==> Consistent(b[k], caseSensitive))
    decreases ItemsNesting(a, j) + ItemsNesting(b, j) + 1, |a| - j
  {
    if j < |a| && j < |b| {
      CompareIsCanonical(a[j], b[j], caseSensitive);
      ItemsCanonical(a, b, j + 1, caseSensitive);
      HeadsAndTails(CanonOf(a[j], caseSensitive), CanonItems(a, j + 1, caseSensitive),
        CanonOf(b[j], caseSensitive), CanonItems(b, j + 1, caseSensitive));
    } else {
      CanonLength(a, j, caseSensitive);
      CanonLength(b, j, caseSensitive);
    }
  }

  // A member is covered if it agrees with the other object's map and so does the member found there.
  lemma {:induction false} CoversIsAgreement(a: seq<Member>, j: nat, b: seq<Member>, n: map<Bytes, Canon>, caseSensitive: bool)
    requires j <= |a| && IntegerMembers(a, j) && IntegerMembers(b, 0) && n == CanonMembers(b, 0, caseSensitive)
    ensures Covers(a, j, b, caseSensitive) ==> forall k :: j <= k < |a| ==> AgreesOne(a[k], n, caseSensitive)
    ensures (forall k :: j <= k < |a| ==> AgreesOne(a[k], n, caseSensitive)) && Agrees(b, n, caseSensitive) ==>
      Covers(a, j, b, caseSensitive)
    decreases MembersNesting(a, j) + MembersNesting(b, 0) + 1, |a| - j
  {
    if j < |a| {
      CoversIsAgreement(a, j + 1, b, n, caseSensitive);
      CoveredIsAgreement(a, j, b, n, caseSensitive);
    }
  }

  lemma {:induction false} CoveredIsAgreement(a: seq<Member>, j: nat, b: seq<Member>, n: map<Bytes, Canon>, caseSensitive: bool)
    requires j < |a| && IntegerMembers(a, j) && IntegerMembers(b, 0) && n == CanonMembers(b, 0, caseSensitive)
    ensures CoversOne(a, j, b, caseSensitive) ==> AgreesOne(a[j], n, caseSensitive)
    ensures AgreesOne(a[j], n, caseSensitive) && Agrees(b, n, caseSensitive) ==> CoversOne(a, j, b, caseSensitive)
    decreases MembersNesting(a, j) + MembersNesting(b, 0) + 1, 0
  {
    var key := KeyOf(a[j].name, caseSensitive);
    MapHas(b, 0, key, caseSensitive);
    var r := FindMember(b, key, caseSensitive, 0);
    if r.Some? {
      IntegerMember(b, 0, r.value);
      MemberNesting(b, 0, r.value);
      CompareIsCanonical(a[j].value, b[r.value].value, caseSensitive);
      assert Agrees(b, n, caseSensitive) ==> AgreesOne(b[r.value], n, caseSensitive);
    }
  }

  // What a tree and its copy need to compare equal, and that nothing more is missing to an equivalence.
  lemma CompareEquivalence(a: Json, b: Json, c: Json, caseSensitive: bool)
    requires Integers(a) && Integers(b) && Integers(c)
    ensures Compare(a, a, caseSensitive) <==> Consistent(a, caseSensitive)
    ensures Compare(a, b, caseSensitive) && Compare(b, c, caseSensitive) ==> Compare(a, c, caseSensitive)
  {
    CompareIsCanonical(a, a, caseSensitive);
    CompareIsCanonical(a, b, caseSensitive);
    CompareIsCanonical(b, c, caseSensitive);
    CompareIsCanonical(a, c, caseSensitive);
  }

  // An object in which a key occurs twice, in either mode, is equal to a copy of itself exactly if the
  // two values are equal.
  lemma TwiceTheSameKey(first: Member, second: Member, caseSensitive: bool)
    requires KeyOf(first.name, caseSensitive) == KeyOf(second.name, caseSensitive)
    requires Integers(first.value) && Integers(second.value)
    ensures var t := Object([first, second]);
      Compare(t, t, caseSensitive) <==> Compare(first.value, second.value, caseSensitive)
  {
    var members := [first, second];
    var t, key := Object(members), KeyOf(first.name, caseSensitive);
    assert IntegerMembers(members, 2) && IntegerMembers(members, 1) && IntegerMembers(members, 0);
    CompareIsCanonical(t, t, caseSensitive);
    CompareIsCanonical(first.value, second.value, caseSensitive);
    MapHas(members, 0, key, caseSensitive);
    assert members[0] == first && members[1] == second;
    var m := CanonMembers(members, 0, caseSensitive);
    assert Agrees(members, m, caseSensitive) <==> AgreesOne(first, m, caseSensitive) && AgreesOne(second, m, caseSensitive);
  }

  // ---- distinct keys ----

  // No key of an object occurs again, compared in the chosen mode.
  predicate Distinct(t: Json, caseSensitive: bool)
    decreases t, 0
  {
    match t
    case Array(items) => DistinctItems(items, 0, caseSensitive)
    case Object(members) => DistinctMembers(members, 0, caseSensitive)
    case _ => true
  }

  predicate DistinctItems(items: seq<Json>, j: nat, caseSensitive: bool)
    requires j <= |items|
    decreases items, |items| - j
  {
    j < |items| ==> Distinct(items[j], caseSensitive) && DistinctItems(items, j + 1, caseSensitive)
  }

  predicate DistinctMembers(members: seq<Member>, j: nat, caseSensitive: bool)
    requires j <= |members|
    decreases members, |members| - j
  {
    j < |members| ==>
      && FindMember(members, KeyOf(members[j].name, caseSensitive), caseSensitive, j + 1) == None
      && Distinct(members[j].value, caseSensitive) && DistinctMembers(members, j + 1, caseSensitive)
  }

  lemma {:induction false} FindsOwn(members: seq<Member>, j: nat, k: nat, caseSensitive: bool)
    requires j <= k < |members| && DistinctMembers(members, j, caseSensitive)
    ensures FindMember(members, KeyOf(members[k].name, caseSensitive), caseSensitive, j) == Some(k)
    ensures Distinct(members[k].value, caseSensitive)
    decreases k - j
  {
    if j < k {
      FindsOwn(members, j + 1, k, caseSensitive);
    }
  }

  lemma {:induction false} DistinctItem(items: seq<Json>, j: nat, k: nat, caseSensitive: bool)
    requires j <= k < |items| && DistinctItems(items, j, caseSensitive)
    ensures Distinct(items[k], caseSensitive)
    decreases k - j
  {
    if j < k {
      DistinctItem(items, j + 1, k, caseSensitive);
    }
  }

  lemma {:induction false} DistinctIsConsistent(t: Json, caseSensitive: bool)
    requires Distinct(t, caseSensitive)
    ensures Consistent(t, caseSensitive)
    decreases t
  {
    match t
    case Array(items) =>
      forall k | 0 <= k < |items| ensures Consistent(items[k], caseSensitive) {
        DistinctItem(items, 0, k, caseSensitive);
        DistinctIsConsistent(items[k], caseSensitive);
      }
    case Object(members) =>
      var m := CanonMembers(members, 0, caseSensitive);
      forall k | 0 <= k < |members| ensures AgreesOne(members[k], m, caseSensitive) {
        FindsOwn(members, 0, k, caseSensitive);
        MapHas(members, 0, KeyOf(members[k].name, caseSensitive), caseSensitive);
        DistinctIsConsistent(members[k].value, caseSensitive);
      }
    case _ =>
  }

  // With distinct keys cJSON_Compare is the equality of recursive maps.
  lemma CompareIsEquality(a: Json, b: Json, caseSensitive: bool)
    requires Integers(a) && Integers(b) && Distinct(a, caseSensitive) && Distinct(b, caseSensitive)
    ensures Compare(a, b, caseSensitive) <==> CanonOf(a, caseSensitive) == CanonOf(b, caseSensitive)
  {
    DistinctIsConsistent(a, caseSensitive);
    DistinctIsConsistent(b, caseSensitive);
    CompareIsCanonical(a, b, caseSensitive);
  }

  // ---- the order of members ----

  // b is a with the members of its objects in some other order, at any depth.
  ghost predicate Reordered(a: Json, b: Json)
    decreases a
  {
    match a
    case Array(items) =>
      b.Array? && |items| == |b.items| && forall i :: 0 <= i < |items| ==> Reordered(items[i], b.items[i])
    case Object(members) =>
      && b.Object?
      && (exists p: seq<int> ::
        Shuffled(members, p, b.members) && (forall i :: 0 <= i < |members| ==> Reordered(members[i].value, b.members[p[i]].value)))
    case _ => a == b
  }

  // p is a permutation that takes every member of a to one of b with its name.
  ghost predicate Shuffled(a: seq<Member>, p: seq<int>, b: seq<Member>) {
    && |a| == |b| == |p|
    && (forall i :: 0 <= i < |a| ==> 0 <= p[i] < |b| && a[i].name == b[p[i]].name)
    && (forall k :: 0 <= k < |b| ==> k in p)
  }

  // If either of them is consistent so is the other, and they stand for the same.
  lemma {:induction false} ReorderedSame(a: Json, b: Json, caseSensitive: bool)
    requires Reordered(a, b) && (Consistent(a, caseSensitive) || Consistent(b, caseSensitive))
    ensures Consistent(a, caseSensitive) && Consistent(b, caseSensitive) && CanonOf(a, caseSensitive) == CanonOf(b, caseSensitive)
    decreases a
  {
    match a
    case Array(items) =>
      forall i | 0 <= i < |items|
        ensures Consistent(items[i], caseSensitive) && Consistent(b.items[i], caseSensitive)
        ensures CanonOf(items[i], caseSensitive) == CanonOf(b.items[i], caseSensitive)
      {
        ReorderedSame(items[i], b.items[i], caseSensitive);
      }
      SameCanons(items, b.items, 0, caseSensitive);
    case Object(members) =>
      var p: seq<int> :| Shuffled(members, p, b.members) &&
        forall i :: 0 <= i < |members| ==> Reordered(members[i].value, b.members[p[i]].value);
      ShuffledSame(members, p, b.members, caseSensitive);
    case _ =>
  }

  lemma {:induction false} ShuffledSame(xs: seq<Member>, p: seq<int>, ys: seq<Member>, caseSensitive: bool)
    requires Shuffled(xs, p, ys) && forall i :: 0 <= i < |xs| ==> Reordered(xs[i].value, ys[p[i]].value)
    requires Consistent(Object(xs), caseSensitive) || Consistent(Object(ys), caseSensitive)
    ensures Consistent(Object(xs), caseSensitive) && Consistent(Object(ys), caseSensitive)
    ensures CanonOf(Object(xs), caseSensitive) == CanonOf(Object(ys), caseSensitive)
    decreases xs
  {
    var m, n := CanonMembers(xs, 0, caseSensitive), CanonMembers(ys, 0, caseSensitive);
    if Agrees(xs, m, caseSensitive) {
      forall k | 0 <= k < |xs| ensures AgreesOne(ys[k], m, caseSensitive) {
        assert k in p;
        var i :| 0 <= i < |p| && p[i] == k;
        SameMember(xs[i], ys[k], m, caseSensitive);
      }
      SameMap(xs, p, ys, m, n, caseSensitive);
    } else {
      assert Agrees(ys, n, caseSensitive);
      forall i | 0 <= i < |xs| ensures AgreesOne(xs[i], n, caseSensitive) {
        SameMember(xs[i], ys[p[i]], n, caseSensitive);
      }
      SameMap(xs, p, ys, m, n, caseSensitive);
    }
  }

  lemma {:induction false} SameMember(x: Member, y: Member, m: map<Bytes, Canon>, caseSensitive: bool)
    requires x.name == y.name && Reordered(x.value, y.value)
    ensures AgreesOne(x, m, caseSensitive) <==> AgreesOne(y, m, caseSensitive)
    decreases x
  {
    if Consistent(x.value, caseSensitive) || Consistent(y.value, caseSensitive) {
      ReorderedSame(x.value, y.value, caseSensitive);
    }
  }

  lemma {:induction false} SameCanons(a: seq<Json>, b: seq<Json>, j: nat, caseSensitive: bool)
    requires j <= |a| == |b| && forall i :: 0 <= i < |a| ==> CanonOf(a[i], caseSensitive) == CanonOf(b[i], caseSensitive)
    ensures CanonItems(a, j, caseSensitive) == CanonItems(b, j, caseSensitive)
    decreases |a| - j
  {
    if j < |a| {
      SameCanons(a, b, j + 1, caseSensitive);
    }
  }

  // Two orders of the same keys give the same map, if the members of one agree with the map of the other.
  lemma SameMap(a: seq<Member>, p: seq<int>, b: seq<Member>, m: map<Bytes, Canon>, n: map<Bytes, Canon>, caseSensitive: bool)
    requires Shuffled(a, p, b)
    requires m == CanonMembers(a, 0, caseSensitive) && n == CanonMembers(b, 0, caseSensitive)
    requires Agrees(a, n, caseSensitive) || Agrees(b, m, caseSensitive)
    ensures m == n
  {
    forall key | key in m ensures key in n {
      MapHas(a, 0, key, caseSensitive);
      var i := FindMember(a, key, caseSensitive, 0).value;
      HasKey(b, 0, p[i], key, caseSensitive);
    }
    forall key | key in n ensures key in m {
      MapHas(b, 0, key, caseSensitive);
      var k := FindMember(b, key, caseSensitive, 0).value;
      assert k in p;
      var i :| 0 <= i < |p| && p[i] == k;
      HasKey(a, 0, i, key, caseSensitive);
    }
    if Agrees(a, n, caseSensitive) {
      AgreesWithin(a, m, n, caseSensitive);
    } else {
      AgreesWithin(b, n, m, caseSensitive);
    }
  }

  // The order of members at any depth makes no difference to a comparison with any tree.
  lemma OrderDoesNotMatter(a: Json, b: Json, c: Json, caseSensitive: bool)
    requires Integers(a) && Integers(b) && Integers(c) && Reordered(a, b)
    ensures Compare(a, c, caseSensitive) <==> Compare(b, c, caseSensitive)
    ensures Compare(a, b, caseSensitive) <==> Consistent(a, caseSensitive)
  {
    if Consistent(a, caseSensitive) || Consistent(b, caseSensitive) {
      ReorderedSame(a, b, caseSensitive);
    }
    CompareIsCanonical(a, b, caseSensitive);
    CompareIsCanonical(a, c, caseSensitive);
    CompareIsCanonical(b, c, caseSensitive);
  }
}
