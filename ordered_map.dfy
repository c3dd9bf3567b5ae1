/**
 * A PHP array with string keys, as WPMail uses one for parsed headers: an
 * ordered list of key/value entries in which a key occurs at most once.
 * Assigning to a key that is present replaces its value where it stands;
 * assigning to a new key appends an entry at the end.
 */
module OrderedMap {
  import opened Wrappers

  type Entries = seq<(string, string)>

  /** The keys, in entry order. */
  function Keys(m: Entries): (ks: seq<string>)
    ensures |ks| == |m|
    ensures forall i :: 0 <= i < |m| ==> ks[i] == m[i].0
  {
    seq(|m|, i requires 0 <= i < |m| => m[i].0)
  }

  /** No key occurs twice. */
  predicate UniqueKeys(m: Entries) {
    forall i, j :: 0 <= i < j < |m| ==> m[i].0 != m[j].0
  }

  /** The position of the first entry with key `k`, if any. */
  function KeyIndex(m: Entries, k: string): (r: Option<nat>)
    ensures r.Some? ==> r.value < |m| && m[r.value].0 == k
    ensures r.Some? ==> forall j :: 0 <= j < r.value ==> m[j].0 != k
    ensures r.None? ==> forall j :: 0 <= j < |m| ==> m[j].0 != k
  {
    if |m| == 0 then None
    else if m[0].0 == k then Some(0)
    else match KeyIndex(m[1..], k)
      case None => None
      case Some(i) => Some(i + 1)
  }

  /** $m[$k], when it is set. */
  function Get(m: Entries, k: string): Option<string>
  {
    match KeyIndex(m, k)
    case None => None
    case Some(i) => Some(m[i].1)
  }

  /** $m[$k] = $v. */
  function Put(m: Entries, k: string, v: string): Entries
  {
    match KeyIndex(m, k)
    case None => m + [(k, v)]
    case Some(i) => m[i := (k, v)]
  }

  /** An assignment is read back; every other key keeps its value. */
  lemma PutGet(m: Entries, k: string, v: string, k': string)
    ensures Get(Put(m, k, v), k') == if k' == k then Some(v) else Get(m, k')
  {
    var r := Put(m, k, v);
    match KeyIndex(m, k')
    case None =>
      if k' != k {
        assert KeyIndex(r, k') == None;
      } else {
        KeyIndexAt(r, k', |m|);
      }
    case Some(i) =>
      KeyIndexAt(r, k', i);
  }

  /** The first entry with key `k` is the one `KeyIndex` finds. */
  lemma KeyIndexAt(m: Entries, k: string, i: nat)
    requires i < |m| && m[i].0 == k
    requires forall j :: 0 <= j < i ==> m[j].0 != k
    ensures KeyIndex(m, k) == Some(i)
  {
  }

  /** An assignment keeps the key order and adds a new key at the end. */
  lemma PutKeys(m: Entries, k: string, v: string)
    ensures Keys(Put(m, k, v)) == if k in Keys(m) then Keys(m) else Keys(m) + [k]
  {
    if k in Keys(m) {
      var i :| 0 <= i < |m| && Keys(m)[i] == k;
      assert KeyIndex(m, k).Some?;
    } else {
      assert KeyIndex(m, k).None?;
    }
  }

  lemma PutUnique(m: Entries, k: string, v: string)
    requires UniqueKeys(m)
    ensures UniqueKeys(Put(m, k, v))
  {
  }

  /** An assignment adds its own entry and keeps or replaces the others. */
  lemma PutEntries(m: Entries, k: string, v: string)
    ensures forall e :: e in Put(m, k, v) ==> e in m || e == (k, v)
  {
  }

  /** The entries a foreach builds by assigning each pair in turn. */
  function FromPairs(ps: seq<(string, string)>): (m: Entries)
    ensures UniqueKeys(m)
    ensures forall e :: e in m ==> e in ps
  {
    if |ps| == 0 then []
    else
      var init := FromPairs(ps[..|ps| - 1]);
      PutUnique(init, ps[|ps| - 1].0, ps[|ps| - 1].1);
      PutEntries(init, ps[|ps| - 1].0, ps[|ps| - 1].1);
      assert ps == ps[..|ps| - 1] + [ps[|ps| - 1]];
      Put(init, ps[|ps| - 1].0, ps[|ps| - 1].1)
  }

  /** The value of the last pair with key `k`. */
  function LastValue(ps: seq<(string, string)>, k: string): Option<string>
  {
    if |ps| == 0 then None
    else if ps[|ps| - 1].0 == k then Some(ps[|ps| - 1].1)
    else LastValue(ps[..|ps| - 1], k)
  }

  /** Each key once, in the order of its first occurrence. */
  function FirstOccurrences(ks: seq<string>): (r: seq<string>)
    ensures forall k :: k in r <==> k in ks
  {
    if |ks| == 0 then []
    else
      var d := FirstOccurrences(ks[..|ks| - 1]);
      assert ks == ks[..|ks| - 1] + [ks[|ks| - 1]];
      if ks[|ks| - 1] in d then d else d + [ks[|ks| - 1]]
  }

  /** A repeated key keeps the value of its last assignment. */
  lemma {:induction false} FromPairsLastWins(ps: seq<(string, string)>, k: string)
    ensures Get(FromPairs(ps), k) == LastValue(ps, k)
  {
    if |ps| > 0 {
      var init := ps[..|ps| - 1];
      FromPairsLastWins(init, k);
      PutGet(FromPairs(init), ps[|ps| - 1].0, ps[|ps| - 1].1, k);
    }
  }

  /** A key stands where it was first assigned. */
  lemma {:induction false} FromPairsFirstPosition(ps: seq<(string, string)>)
    ensures Keys(FromPairs(ps)) == FirstOccurrences(Keys(ps))
  {
    if |ps| > 0 {
      var init := ps[..|ps| - 1];
      FromPairsFirstPosition(init);
      assert Keys(ps)[..|ps| - 1] == Keys(init);
      PutKeys(FromPairs(init), ps[|ps| - 1].0, ps[|ps| - 1].1);
    }
  }

  /** Pairs with distinct keys are kept as they are, in order. */
  lemma {:induction false} FromPairsDistinct(ps: seq<(string, string)>)
    requires UniqueKeys(ps)
    ensures FromPairs(ps) == ps
  {
    if |ps| > 0 {
      var init := ps[..|ps| - 1];
      FromPairsDistinct(init);
      var last := ps[|ps| - 1];
      assert KeyIndex(init, last.0) == None;
      assert init + [last] == ps;
    }
  }
}
