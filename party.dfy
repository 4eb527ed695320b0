/**
 * check_conflicts of Hashtable/party_live.c: guests state preferences
 * "+ingredient" or "-ingredient"; the party is unhappy at the first
 * preference that contradicts an earlier one about the same ingredient.
 * The table maps each ingredient to the sign first seen for it.
 */
module Party {
  import opened Options
  import opened Comparators
  import opened HashMaps
  import opened Hashes

  /** HMAX: the number of buckets check_conflicts asks for. */
  const HMAX: nat := 30000

  /** `struct preferences`: a sign and the ingredient it is about. */
  datatype Preference = Preference(sign: char, ingredient: string)

  /** What check_conflicts prints: "Happy!", or "Unhappy.." and the ingredient. */
  datatype Outcome = Happy | Unhappy(ingredient: string)

  /** The sign of the earliest preference about `ing`, if there is one. */
  function FirstSign(prefs: seq<Preference>, ing: string): (r: Option<char>)
    ensures r.None? <==> forall j :: 0 <= j < |prefs| ==> prefs[j].ingredient != ing
    ensures r.Some? ==> exists j :: 0 <= j < |prefs| && prefs[j].ingredient == ing && prefs[j].sign == r.value
  {
    if prefs == [] then None
    else
      var init := prefs[..|prefs| - 1];
      assert forall j :: 0 <= j < |init| ==> init[j] == prefs[j];
      match FirstSign(init, ing)
      case Some(s) => Some(s)
      case None => if prefs[|prefs| - 1].ingredient == ing then Some(prefs[|prefs| - 1].sign) else None
  }

  /** Every two preferences among the first `n` about the same ingredient have the same sign. */
  ghost predicate Consistent(prefs: seq<Preference>, n: nat)
    requires n <= |prefs|
  {
    forall a, b :: 0 <= a < n && 0 <= b < n && prefs[a].ingredient == prefs[b].ingredient ==> prefs[a].sign == prefs[b].sign
  }

  /** Preference `i` contradicts an earlier one. */
  ghost predicate Clash(prefs: seq<Preference>, i: nat)
    requires i < |prefs|
  {
    exists j :: 0 <= j < i && prefs[j].ingredient == prefs[i].ingredient && prefs[j].sign != prefs[i].sign
  }

  /**
   * check_conflicts: Happy exactly when no two preferences about one
   * ingredient disagree; otherwise Unhappy with the ingredient of the
   * first preference that contradicts an earlier one.
   */
  method CheckConflicts(prefs: seq<Preference>) returns (outcome: Outcome)
    ensures outcome.Happy? <==> Consistent(prefs, |prefs|)
    ensures outcome.Unhappy? ==>
              exists i :: 0 <= i < |prefs| && Clash(prefs, i) && outcome.ingredient == prefs[i].ingredient &&
                forall i' :: 0 <= i' < i ==> !Clash(prefs, i')
  {
    var ht: HashMap?<string, char> := Create(HMAX, Some(StringHash), Some(CompareStrings));
    for i := 0 to |prefs|
      invariant fresh(ht) && fresh(ht.buckets) && ht.Valid() && ht.cmp == CompareStrings
      invariant forall ing :: ht.Lookup(ing) == FirstSign(prefs[..i], ing)
      invariant Consistent(prefs, i)
    {
      var data := Consider(ht, prefs, i);
      if data.Some? && data.value != prefs[i].sign {
        FirstClash(prefs, i, data.value);
        return Unhappy(prefs[i].ingredient);
      }
      ConsistentExtend(prefs, i);
    }
    return Happy;
  }

  /**
   * One round of the loop of check_conflicts: look the ingredient up and,
   * when it is new, record its sign. The table then keeps the first sign
   * of every ingredient seen so far, unless the sign found differs.
   */
  method Consider(ht: HashMap<string, char>, prefs: seq<Preference>, i: nat) returns (data: Option<char>)
    requires i < |prefs| && ht.Valid() && ht.cmp == CompareStrings
    requires forall ing :: ht.Lookup(ing) == FirstSign(prefs[..i], ing)
    modifies ht, ht.buckets
    ensures ht.Valid() && ht.cmp == CompareStrings && ht.buckets == old(ht.buckets)
    ensures data == FirstSign(prefs[..i], prefs[i].ingredient)
    ensures data.None? || data.value == prefs[i].sign ==>
              forall ing :: ht.Lookup(ing) == FirstSign(prefs[..i + 1], ing)
  {
    var p := prefs[i];
    data := Get(ht, Some(p.ingredient));
    if data.None? {
      CompareStringsIsEquality();
      Put(ht, Some(p.ingredient), Some(p.sign));
    }
    forall ing
      ensures ht.Lookup(ing) == FirstSign(prefs[..i + 1], ing) || (data.Some? && data.value != p.sign)
    {
      FirstSignExtend(prefs, i, ing);
    }
  }

  /**
   * At the first position whose sign differs from the one kept for its
   * ingredient, that preference clashes, no earlier one does, and the
   * preferences are not consistent.
   */
  lemma FirstClash(prefs: seq<Preference>, i: nat, s: char)
    requires i < |prefs| && Consistent(prefs, i)
    requires FirstSign(prefs[..i], prefs[i].ingredient) == Some(s) && s != prefs[i].sign
    ensures Clash(prefs, i) && !Consistent(prefs, |prefs|)
    ensures forall i' :: 0 <= i' < i ==> !Clash(prefs, i')
  {
    var j :| 0 <= j < i && prefs[..i][j].ingredient == prefs[i].ingredient && prefs[..i][j].sign == s;
    assert prefs[..i][j] == prefs[j];
  }

  /** One more preference: the kept sign changes only for an ingredient seen for the first time. */
  lemma FirstSignExtend(prefs: seq<Preference>, i: nat, ing: string)
    requires i < |prefs|
    ensures FirstSign(prefs[..i + 1], ing) ==
              if FirstSign(prefs[..i], ing).Some? then FirstSign(prefs[..i], ing)
              else if prefs[i].ingredient == ing then Some(prefs[i].sign)
              else None
  {
    assert prefs[..i + 1][..i] == prefs[..i];
  }

  /** A preference that agrees with the kept sign of its ingredient, or is the first about it, keeps the prefix consistent. */
  lemma ConsistentExtend(prefs: seq<Preference>, i: nat)
    requires i < |prefs| && Consistent(prefs, i)
    requires FirstSign(prefs[..i], prefs[i].ingredient) in {None, Some(prefs[i].sign)}
    ensures Consistent(prefs, i + 1)
  {
    var p := prefs[i];
    forall a | 0 <= a < i && prefs[a].ingredient == p.ingredient
      ensures prefs[a].sign == p.sign
    {
      assert prefs[..i][a] == prefs[a];
      var j :| 0 <= j < i && prefs[..i][j].ingredient == p.ingredient && prefs[..i][j].sign == p.sign;
      assert prefs[..i][j] == prefs[j];
    }
  }
}
