/** `FindSubstitutions`: the candidate list `StrReplaceAll` works from. */
module StrReplace {
  import opened Wrappers

  datatype Replacement = Replacement(key: string, text: string)

  /** An occurrence of a key that may be replaced. */
  datatype Viable = Viable(key: string, text: string, offset: nat)
  {
    predicate OccursBefore(y: Viable) {
      if offset != y.offset then offset < y.offset else |key| > |y.key|
    }
  }

  predicate OccursAt(s: string, key: string, pos: nat) {
    pos + |key| <= |s| && s[pos..pos + |key|] == key
  }

  /** `string_view::find`, from position `from` on. */
  function Find(s: string, key: string, from: nat := 0): (r: Option<nat>)
    ensures r.Some? ==> from <= r.value && OccursAt(s, key, r.value)
    ensures forall p :: from <= p && OccursAt(s, key, p) ==> r.Some? && r.value <= p
    decreases |s| - from
  {
    if OccursAt(s, key, from) then Some(from)
    else if from >= |s| then None
    else Find(s, key, from + 1)
  }

  /** The entry a replacement contributes, if any: empty keys are ignored. */
  function Candidate(s: string, r: Replacement): Option<Viable> {
    match Find(s, r.key)
    case None => None
    case Some(pos) => if r.key == "" then None else Some(Viable(r.key, r.text, pos))
  }

  /** Insertion from the end past every entry that occurs before the new one. */
  function Insert(subs: seq<Viable>, x: Viable): seq<Viable> {
    if subs == [] || !subs[|subs| - 1].OccursBefore(x) then subs + [x]
    else Insert(subs[..|subs| - 1], x) + [subs[|subs| - 1]]
  }

  function Candidates(s: string, reps: seq<Replacement>): seq<Viable> {
    if reps == [] then [] else
    var subs := Candidates(s, reps[..|reps| - 1]);
    match Candidate(s, reps[|reps| - 1])
    case None => subs
    case Some(x) => Insert(subs, x)
  }

  /** `x` sits at `index`, on its way down through `before`. */
  predicate Sinking(subs: seq<Viable>, before: seq<Viable>, index: nat, x: Viable) {
    index <= |before| && subs == before[..index] + [x] + before[index..]
  }

  lemma SwapDown(subs: seq<Viable>, before: seq<Viable>, index: nat, x: Viable)
    requires 0 < index && Sinking(subs, before, index, x) && subs[index - 1].OccursBefore(x)
    ensures Sinking(subs[index := subs[index - 1]][index - 1 := subs[index]], before, index - 1, x)
    ensures Insert(before[..index], x) + before[index..] == Insert(before[..index - 1], x) + before[index - 1..]
  {
    assert before[..index][..index - 1] == before[..index - 1];
    assert before[index - 1..] == [before[index - 1]] + before[index..];
  }

  /** The insertion sort step: the entry just appended is swapped down. */
  method SinkLast(before: seq<Viable>, x: Viable) returns (subs: seq<Viable>)
    ensures subs == Insert(before, x)
  {
    subs := before + [x];
    var index := |subs| - 1;
    assert before[..index] == before && before[index..] == [];
    while index != 0 && subs[index - 1].OccursBefore(subs[index])
      invariant 0 <= index && Sinking(subs, before, index, x)
      invariant Insert(before, x) == Insert(before[..index], x) + before[index..]
    {
      SwapDown(subs, before, index, x);
      subs := subs[index := subs[index - 1]][index - 1 := subs[index]];
      index := index - 1;
    }
    assert Insert(before[..index], x) == before[..index] + [x];
  }

  method FindSubstitutions(s: string, replacements: seq<Replacement>) returns (subs: seq<Viable>)
    ensures subs == Candidates(s, replacements)
  {
    subs := [];
    for i := 0 to |replacements|
      invariant subs == Candidates(s, replacements[..i])
    {
      var rep := replacements[i];
      assert replacements[..i + 1][..i] == replacements[..i];
      var pos := Find(s, rep.key);
      if pos.None? { continue; }
      if rep.key == "" { continue; }
      subs := SinkLast(subs, Viable(rep.key, rep.text, pos.value));
    }
    assert replacements[..|replacements|] == replacements;
  }

  // -------------------------------------------------------------------- order

  /** No entry occurs before a later one, so the last has the highest priority. */
  predicate Ordered(subs: seq<Viable>) {
    forall i, j :: 0 <= i < j < |subs| ==> !subs[i].OccursBefore(subs[j])
  }

  lemma {:induction false} InsertContents(subs: seq<Viable>, x: Viable)
    ensures multiset(Insert(subs, x)) == multiset(subs) + multiset{x}
    ensures forall e :: e in Insert(subs, x) <==> e in subs || e == x
  {
    if subs == [] || !subs[|subs| - 1].OccursBefore(x) {
    } else {
      assert subs == subs[..|subs| - 1] + [subs[|subs| - 1]];
      InsertContents(subs[..|subs| - 1], x);
    }
  }

  lemma {:induction false} InsertOrdered(subs: seq<Viable>, x: Viable)
    requires Ordered(subs)
    ensures Ordered(Insert(subs, x))
  {
    if subs == [] || !subs[|subs| - 1].OccursBefore(x) {
      LastIsLeast(subs, x);
    } else {
      var rest, last := subs[..|subs| - 1], subs[|subs| - 1];
      InsertOrdered(rest, x);
      InsertContents(rest, x);
      forall e | e in Insert(rest, x) ensures !e.OccursBefore(last) {
        if e != x { var i :| 0 <= i < |rest| && rest[i] == e; assert subs[i] == e; }
      }
    }
  }

  lemma LastIsLeast(subs: seq<Viable>, x: Viable)
    requires Ordered(subs) && (subs == [] || !subs[|subs| - 1].OccursBefore(x))
    ensures Ordered(subs + [x])
  {
    forall i | 0 <= i < |subs| ensures !subs[i].OccursBefore(x) {
      var last := subs[|subs| - 1];
      assert i < |subs| - 1 ==> !subs[i].OccursBefore(last);
    }
  }

  lemma {:induction false} CandidatesOrdered(s: string, reps: seq<Replacement>)
    ensures Ordered(Candidates(s, reps))
  {
    if reps != [] {
      CandidatesOrdered(s, reps[..|reps| - 1]);
      var c := Candidate(s, reps[|reps| - 1]);
      if c.Some? { InsertOrdered(Candidates(s, reps[..|reps| - 1]), c.value); }
    }
  }

  // ----------------------------------------------------------------- contents

  /** The entries in the order of their replacements. */
  function Filtered(s: string, reps: seq<Replacement>): seq<Viable> {
    if reps == [] then [] else
    var subs := Filtered(s, reps[..|reps| - 1]);
    match Candidate(s, reps[|reps| - 1])
    case None => subs
    case Some(x) => subs + [x]
  }

  /** One entry for every replacement whose key is not empty and occurs, at its
      first occurrence: nothing is lost, doubled or invented. */
  lemma {:induction false} CandidatesContents(s: string, reps: seq<Replacement>)
    ensures multiset(Candidates(s, reps)) == multiset(Filtered(s, reps))
    ensures forall e :: e in Candidates(s, reps) <==> exists r :: r in reps && Candidate(s, r) == Some(e)
  {
    if reps != [] {
      var rest, last := reps[..|reps| - 1], reps[|reps| - 1];
      assert reps == rest + [last];
      CandidatesContents(s, rest);
      var c := Candidate(s, last);
      if c.Some? { InsertContents(Candidates(s, rest), c.value); }
      forall e ensures e in Candidates(s, reps) <==> exists r :: r in reps && Candidate(s, r) == Some(e) {
        assert last in reps;
      }
    }
  }

  /** The entries are exactly the replacements whose key is not empty and occurs,
      each at the first position where it does. */
  lemma CandidatesAreFirstMatches(s: string, reps: seq<Replacement>, e: Viable)
    ensures e in Candidates(s, reps) <==>
      && Replacement(e.key, e.text) in reps && e.key != "" && OccursAt(s, e.key, e.offset)
      && forall p: nat :: OccursAt(s, e.key, p) ==> e.offset <= p
  {
    hide Candidates;
    CandidatesContents(s, reps);
  }

  /** The last entry is the leftmost match of any key anywhere, and the longest of those. */
  lemma LastIsBestMatch(s: string, reps: seq<Replacement>, r: Replacement, pos: nat)
    requires r in reps && r.key != "" && OccursAt(s, r.key, pos)
    ensures var subs := Candidates(s, reps);
      subs != [] && var best := subs[|subs| - 1];
      && OccursAt(s, best.key, best.offset)
      && (best.offset < pos || (best.offset == pos && |best.key| >= |r.key|))
  {
    hide Candidates, Filtered;
    var subs := Candidates(s, reps);
    CandidatesContents(s, reps);
    CandidatesOrdered(s, reps);
    var c := Candidate(s, r);
    assert c.value in subs;
    var i :| 0 <= i < |subs| && subs[i] == c.value;
    var best := subs[|subs| - 1];
    assert i < |subs| - 1 ==> !subs[i].OccursBefore(best);
    assert best in subs;
    var q :| q in reps && Candidate(s, q) == Some(best);
  }

  // ------------------------------------------------ dependence on the order

  predicate Occurs(s: string, key: string) {
    key != "" && Find(s, key).Some?
  }

  /** The replacement texts given for a key, in the order of the replacements. */
  function Texts(reps: seq<Replacement>, key: string): seq<string> {
    if reps == [] then [] else
    var rest, last := Texts(reps[..|reps| - 1], key), reps[|reps| - 1];
    if last.key == key then rest + [last.text] else rest
  }

  /** The entries of a list that have the given key. */
  function OnlyKey(subs: seq<Viable>, key: string): seq<Viable> {
    if subs == [] then [] else
    var rest, last := OnlyKey(subs[..|subs| - 1], key), subs[|subs| - 1];
    if last.key == key then rest + [last] else rest
  }

  /** What a key with these texts contributes. */
  function Entries(s: string, key: string, texts: seq<string>): seq<Viable> {
    if Occurs(s, key) then seq(|texts|, i requires 0 <= i < |texts| => Viable(key, texts[i], Find(s, key).value))
    else []
  }

  /** Every entry is a first occurrence. */
  ghost predicate FirstOccurrences(s: string, subs: seq<Viable>) {
    forall i :: 0 <= i < |subs| ==> Occurs(s, subs[i].key) && Find(s, subs[i].key) == Some(subs[i].offset)
  }

  lemma CandidatesOccur(s: string, reps: seq<Replacement>)
    ensures FirstOccurrences(s, Candidates(s, reps))
  {
    var subs := Candidates(s, reps);
    CandidatesContents(s, reps);
    forall i | 0 <= i < |subs| ensures Occurs(s, subs[i].key) && Find(s, subs[i].key) == Some(subs[i].offset) {
      var r :| r in reps && Candidate(s, r) == Some(subs[i]);
    }
  }

  /** A new entry goes behind the entries it shares its key with. */
  lemma {:induction false} InsertOnlyKey(s: string, subs: seq<Viable>, x: Viable, key: string)
    requires FirstOccurrences(s, subs) && FirstOccurrences(s, [x])
    ensures OnlyKey(Insert(subs, x), key) == OnlyKey(subs, key) + if x.key == key then [x] else []
    decreases |subs|
  {
    assert [x][0] == x;
    if subs == [] || !subs[|subs| - 1].OccursBefore(x) {
      assert (subs + [x])[..|subs|] == subs;
    } else {
      var rest, last := subs[..|subs| - 1], subs[|subs| - 1];
      InsertOnlyKey(s, rest, x, key);
      var inserted := Insert(rest, x);
      assert (inserted + [last])[..|inserted|] == inserted;
      assert last.key != x.key;
    }
  }

  /** The sort is stable: entries with the same key keep the order of their
      replacements. */
  lemma {:induction false} RepeatedKeysKeepTheirOrder(s: string, reps: seq<Replacement>, key: string)
    ensures OnlyKey(Candidates(s, reps), key) == Entries(s, key, Texts(reps, key))
  {
    if reps != [] {
      var rest, last := reps[..|reps| - 1], reps[|reps| - 1];
      RepeatedKeysKeepTheirOrder(s, rest, key);
      var c := Candidate(s, last);
      if c.Some? {
        CandidatesOccur(s, rest);
        InsertOnlyKey(s, Candidates(s, rest), c.value, key);
      }
    }
  }

  lemma {:induction false} OnlyKeySelects(subs: seq<Viable>, key: string, x: Viable)
    ensures x in OnlyKey(subs, key) <==> x in subs && x.key == key
  {
    if subs != [] {
      OnlyKeySelects(subs[..|subs| - 1], key, x);
      assert subs == subs[..|subs| - 1] + [subs[|subs| - 1]];
    }
  }

  /** Two sorted lists with the same entries for every key are the same: entries
      that tie occur at one offset with one length, so they share their key. */
  lemma {:induction false} SortedIsUnique(s: string, a: seq<Viable>, b: seq<Viable>)
    requires Ordered(a) && Ordered(b) && FirstOccurrences(s, a) && FirstOccurrences(s, b)
    requires forall key :: OnlyKey(a, key) == OnlyKey(b, key)
    ensures a == b
    decreases |a|
  {
    hide OnlyKey;
    BothEmpty(a, b);
    if a == [] {
    } else {
      var a', b' := a[..|a| - 1], b[..|b| - 1];
      SameLast(s, a, b);
      forall key ensures OnlyKey(a', key) == OnlyKey(b', key) {
        FrontsAgree(a, b, key);
      }
      SortedIsUnique(s, a', b');
      assert a == a' + [a[|a| - 1]] && b == b' + [b[|b| - 1]];
    }
  }

  lemma BothEmpty(a: seq<Viable>, b: seq<Viable>)
    requires forall key :: OnlyKey(a, key) == OnlyKey(b, key)
    ensures a == [] <==> b == []
  {
    if a != [] { OnlyKeySelects(a, a[0].key, a[0]); }
    if b != [] { OnlyKeySelects(b, b[0].key, b[0]); }
  }

  lemma FrontsAgree(a: seq<Viable>, b: seq<Viable>, key: string)
    requires a != [] && b != [] && a[|a| - 1] == b[|b| - 1] && OnlyKey(a, key) == OnlyKey(b, key)
    ensures OnlyKey(a[..|a| - 1], key) == OnlyKey(b[..|b| - 1], key)
  {
    OnlyKeyOfFront(a, key);
    OnlyKeyOfFront(b, key);
  }

  lemma SameLast(s: string, a: seq<Viable>, b: seq<Viable>)
    requires Ordered(a) && Ordered(b) && FirstOccurrences(s, a) && FirstOccurrences(s, b)
    requires forall key :: OnlyKey(a, key) == OnlyKey(b, key)
    requires a != [] && b != []
    ensures a[|a| - 1] == b[|b| - 1]
  {
    var x, y := a[|a| - 1], b[|b| - 1];
    LastIsLeastOf(a, b, y);
    LastIsLeastOf(b, a, x);
    TiesShareTheirKey(s, x, y);
    OnlyKeyOfFront(a, x.key);
    OnlyKeyOfFront(b, x.key);
    assert OnlyKey(a, x.key) == OnlyKey(b, x.key);
  }

  lemma TiesShareTheirKey(s: string, x: Viable, y: Viable)
    requires Find(s, x.key) == Some(x.offset) && Find(s, y.key) == Some(y.offset)
    requires !x.OccursBefore(y) && !y.OccursBefore(x)
    ensures x.key == y.key
  {
    assert OccursAt(s, x.key, x.offset) && OccursAt(s, y.key, y.offset);
  }

  lemma OnlyKeyOfFront(subs: seq<Viable>, key: string)
    requires subs != []
    ensures var last, all := subs[|subs| - 1], OnlyKey(subs, key);
      if last.key != key then OnlyKey(subs[..|subs| - 1], key) == all
      else all != [] && all[|all| - 1] == last && OnlyKey(subs[..|subs| - 1], key) == all[..|all| - 1]
  {
  }

  /** An entry of the other list does not occur before the last of this one. */
  lemma LastIsLeastOf(a: seq<Viable>, b: seq<Viable>, y: Viable)
    requires Ordered(a) && a != [] && y in b
    requires forall key :: OnlyKey(a, key) == OnlyKey(b, key)
    ensures !y.OccursBefore(a[|a| - 1])
  {
    OnlyKeySelects(a, y.key, y);
    OnlyKeySelects(b, y.key, y);
    var i :| 0 <= i < |a| && a[i] == y;
  }

  /** For all lists of replacements: the results agree if and only if every key
      that occurs is given the same texts in the same order. */
  lemma SameResultIff(s: string, reps: seq<Replacement>, reps': seq<Replacement>)
    ensures Candidates(s, reps) == Candidates(s, reps')
       <==> forall key :: Occurs(s, key) ==> Texts(reps, key) == Texts(reps', key)
  {
    forall key ensures OnlyKey(Candidates(s, reps), key) == OnlyKey(Candidates(s, reps'), key)
                  <==> (Occurs(s, key) ==> Texts(reps, key) == Texts(reps', key)) {
      RepeatedKeysKeepTheirOrder(s, reps, key);
      RepeatedKeysKeepTheirOrder(s, reps', key);
      EntriesInjective(s, key, Texts(reps, key), Texts(reps', key));
    }
    if forall key :: Occurs(s, key) ==> Texts(reps, key) == Texts(reps', key) {
      CandidatesOrdered(s, reps);
      CandidatesOrdered(s, reps');
      CandidatesOccur(s, reps);
      CandidatesOccur(s, reps');
      SortedIsUnique(s, Candidates(s, reps), Candidates(s, reps'));
    }
  }

  lemma EntriesInjective(s: string, key: string, one: seq<string>, two: seq<string>)
    ensures Entries(s, key, one) == Entries(s, key, two) <==> (Occurs(s, key) ==> one == two)
  {
    if Occurs(s, key) && Entries(s, key, one) == Entries(s, key, two) {
      forall i | 0 <= i < |one| ensures i < |two| && one[i] == two[i] {
        assert Entries(s, key, one)[i].text == one[i];
      }
      assert |Entries(s, key, one)| == |one| && |Entries(s, key, two)| == |two|;
    }
  }

  predicate DistinctKeys(reps: seq<Replacement>) {
    forall i, j :: 0 <= i < j < |reps| ==> reps[i].key != reps[j].key
  }

  /** With distinct keys the result does not depend on the order in which the
      replacements are visited, as a hash map may visit them in any. */
  lemma OrderDoesNotMatter(s: string, reps: seq<Replacement>, reps': seq<Replacement>)
    requires DistinctKeys(reps) && DistinctKeys(reps')
    requires forall r :: r in reps <==> r in reps'
    ensures Candidates(s, reps) == Candidates(s, reps')
  {
    forall key ensures Texts(reps, key) == Texts(reps', key) {
      SameTexts(reps, reps', key);
    }
    SameResultIff(s, reps, reps');
  }

  lemma SameTexts(reps: seq<Replacement>, reps': seq<Replacement>, key: string)
    requires DistinctKeys(reps) && DistinctKeys(reps')
    requires forall r :: r in reps <==> r in reps'
    ensures Texts(reps, key) == Texts(reps', key)
  {
    OneText(reps, key);
    OneText(reps', key);
    if Texts(reps, key) != [] && Texts(reps', key) != [] {
      SameKey(reps, Replacement(key, Texts(reps, key)[0]), Replacement(key, Texts(reps', key)[0]));
    }
  }

  lemma SameKey(reps: seq<Replacement>, p: Replacement, q: Replacement)
    requires DistinctKeys(reps) && p in reps && q in reps && p.key == q.key
    ensures p == q
  {
    var i :| 0 <= i < |reps| && reps[i] == p;
    var j :| 0 <= j < |reps| && reps[j] == q;
    assert i == j || reps[i].key == reps[j].key;
  }

  lemma {:induction false} OneText(reps: seq<Replacement>, key: string)
    requires DistinctKeys(reps)
    ensures Texts(reps, key) == [] ==> forall r :: r in reps ==> r.key != key
    ensures Texts(reps, key) != [] ==> |Texts(reps, key)| == 1 && Replacement(key, Texts(reps, key)[0]) in reps
  {
    if reps != [] {
      var rest, last := reps[..|reps| - 1], reps[|reps| - 1];
      OneText(rest, key);
      assert reps == rest + [last];
      if Texts(rest, key) != [] { LastIsDistinct(reps, Replacement(key, Texts(rest, key)[0])); }
    }
  }

  lemma LastIsDistinct(reps: seq<Replacement>, r: Replacement)
    requires DistinctKeys(reps) && reps != [] && r in reps[..|reps| - 1]
    ensures r.key != reps[|reps| - 1].key
  {
    var i :| 0 <= i < |reps| - 1 && reps[i] == r;
  }
}
