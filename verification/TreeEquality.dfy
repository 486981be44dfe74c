// When two trees with distinct keys compare equal, told without the search for keys.
module TreeEquality {
  import opened Bits
  import opened ByteStrings
  import opened JsonData
  import opened JsonCompare

  // The same kind and the same contents: numbers that are close, equal strings, arrays with equal elements at each index,
  // and objects of which each member has one in the other with the letters of its key and an equal value.
  ghost predicate Alike(a: Json, b: Json, caseSensitive: bool)
    decreases a
  {
    match a
    case Null => b.Null?
    case False => b.False?
    case True => b.True?
    case Number(x) => b.Number? && CompareDouble(x, b.number)
    case Text(s) => b.Text? && s == b.text
    case Array(items) =>
      b.Array? && |items| == |b.items| && forall k :: 0 <= k < |items| ==> Alike(items[k], b.items[k], caseSensitive)
    case Object(members) =>
      b.Object? && AllHave(members, b.members, 0, caseSensitive) && AllAre(members, b.members, 0, caseSensitive)
  }

  ghost predicate AlikeMembers(x: Member, y: Member, caseSensitive: bool)
    decreases x, 0
  {
    SameLetters(x.name, y.name, caseSensitive) && Alike(x.value, y.value, caseSensitive)
  }

  // Every member of a from index j on has one in b.
  ghost predicate AllHave(a: seq<Member>, b: seq<Member>, j: nat, caseSensitive: bool)
    decreases a, 0
  {
    forall i :: j <= i < |a| ==> HasAlike(a[i], b, caseSensitive)
  }

  // Every member of b from index j on is one that a has.
  ghost predicate AllAre(a: seq<Member>, b: seq<Member>, j: nat, caseSensitive: bool)
    decreases a, 1
  {
    forall k :: j <= k < |b| ==> IsAlike(a, b[k], caseSensitive)
  }

  ghost predicate HasAlike(x: Member, b: seq<Member>, caseSensitive: bool)
    decreases x, 1
  {
    exists j :: 0 <= j < |b| && AlikeMembers(x, b[j], caseSensitive)
  }

  ghost predicate IsAlike(a: seq<Member>, y: Member, caseSensitive: bool)
    decreases a, 0
  {
    exists i :: 0 <= i < |a| && AlikeMembers(a[i], y, caseSensitive)
  }

  lemma {:induction false} ItemsAlike(a: seq<Json>, b: seq<Json>, j: nat, caseSensitive: bool)
    requires j <= |a| && j <= |b| && DistinctItems(a, j, caseSensitive) && DistinctItems(b, j, caseSensitive)
    ensures CompareItems(a, b, j, caseSensitive) <==>
      |a| == |b| && forall k :: j <= k < |a| ==> Alike(a[k], b[k], caseSensitive)
    decreases a, |a| - j
  {
    if j < |a| && j < |b| {
      var n := j + 1;
      CompareIsAlike(a[j], b[j], caseSensitive);
      ItemsAlike(a, b, n, caseSensitive);
    }
  }

  // With distinct keys the member that the search finds is the only one with these letters.
  lemma FoundMember(b: seq<Member>, name: Bytes, caseSensitive: bool, k: nat)
    requires DistinctMembers(b, 0, caseSensitive) && k < |b| && SameLetters(name, b[k].name, caseSensitive)
    ensures FindMember(b, KeyOf(name, caseSensitive), caseSensitive, 0) == Some(k) && Distinct(b[k].value, caseSensitive)
  {
    FindsOwn(b, 0, k, caseSensitive);
    KeysAlike(name, b[k].name, caseSensitive);
  }

  lemma {:induction false} OneAlike(a: seq<Member>, i: nat, b: seq<Member>, caseSensitive: bool)
    requires i < |a| && Distinct(a[i].value, caseSensitive) && DistinctMembers(b, 0, caseSensitive)
    ensures CoversOne(a, i, b, caseSensitive) <==> HasAlike(a[i], b, caseSensitive)
    decreases a, 0
  {
    match FindMember(b, KeyOf(a[i].name, caseSensitive), caseSensitive, 0)
    case Some(k) =>
      KeysAlike(a[i].name, b[k].name, caseSensitive);
      FoundMember(b, a[i].name, caseSensitive, k);
      CompareIsAlike(a[i].value, b[k].value, caseSensitive);
      forall j | 0 <= j < |b| && AlikeMembers(a[i], b[j], caseSensitive) ensures j == k {
        FoundMember(b, a[i].name, caseSensitive, j);
      }
    case None =>
      forall j | 0 <= j < |b| ensures !AlikeMembers(a[i], b[j], caseSensitive) {
        if SameLetters(a[i].name, b[j].name, caseSensitive) {
          FoundMember(b, a[i].name, caseSensitive, j);
        }
      }
  }

  // Trees whose keys are distinct in the chosen mode compare equal exactly if they are alike.
  lemma {:induction false} CompareIsAlike(a: Json, b: Json, caseSensitive: bool)
    requires Distinct(a, caseSensitive) && Distinct(b, caseSensitive)
    ensures Compare(a, b, caseSensitive) <==> Alike(a, b, caseSensitive)
    decreases a
  {
    if a.Array? && b.Array? {
      ItemsAlike(a.items, b.items, 0, caseSensitive);
    } else if a.Object? && b.Object? {
      HaveAlike(a.members, 0, b.members, caseSensitive);
      AreAlike(a.members, b.members, 0, caseSensitive);
    }
  }

  lemma {:induction false} HaveAlike(a: seq<Member>, j: nat, b: seq<Member>, caseSensitive: bool)
    requires j <= |a| && DistinctMembers(a, j, caseSensitive) && DistinctMembers(b, 0, caseSensitive)
    ensures Covers(a, j, b, caseSensitive) <==> AllHave(a, b, j, caseSensitive)
    decreases a, 2, |a| - j
  {
    if j < |a| {
      var n := j + 1;
      HaveAlike(a, n, b, caseSensitive);
      OneAlike(a, j, b, caseSensitive);
    }
  }

  lemma {:induction false} AreAlike(a: seq<Member>, b: seq<Member>, j: nat, caseSensitive: bool)
    requires j <= |b| && DistinctMembers(a, 0, caseSensitive) && DistinctMembers(b, j, caseSensitive)
    ensures Covers(b, j, a, caseSensitive) <==> AllAre(a, b, j, caseSensitive)
    decreases a, 2, |b| - j
  {
    if j < |b| {
      var n := j + 1;
      AreAlike(a, b, n, caseSensitive);
      OneBack(a, b, j, caseSensitive);
    }
  }

  // The other way round, by symmetry.
  lemma {:induction false} OneBack(a: seq<Member>, b: seq<Member>, j: nat, caseSensitive: bool)
    requires j < |b| && DistinctMembers(a, 0, caseSensitive) && Distinct(b[j].value, caseSensitive)
    ensures CoversOne(b, j, a, caseSensitive) <==> IsAlike(a, b[j], caseSensitive)
    decreases a, 1
  {
    match FindMember(a, KeyOf(b[j].name, caseSensitive), caseSensitive, 0)
    case Some(k) =>
      KeysAlike(b[j].name, a[k].name, caseSensitive);
      FoundMember(a, b[j].name, caseSensitive, k);
      CompareIsAlike(a[k].value, b[j].value, caseSensitive);
      CompareSymmetric(a[k].value, b[j].value, caseSensitive);
      forall i | 0 <= i < |a| && AlikeMembers(a[i], b[j], caseSensitive) ensures i == k {
        FoundMember(a, b[j].name, caseSensitive, i);
      }
    case None =>
      forall i | 0 <= i < |a| ensures !AlikeMembers(a[i], b[j], caseSensitive) {
        if SameLetters(a[i].name, b[j].name, caseSensitive) {
          FoundMember(a, b[j].name, caseSensitive, i);
        }
      }
  }
}
