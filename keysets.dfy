/** A JavaScript object used as a set of strings (`o[key] = 1`), modelled as
    its keys in first-insertion order, which is the order `Object.keys` lists
    them in; and the report text made from it, every key followed by ','
    (index.js, lines 44-46 and 114-127). */
module KeySets {
  import opened Text

  ghost predicate Distinct(keys: seq<string>) {
    forall i, j :: 0 <= i < j < |keys| ==> keys[i] != keys[j]
  }

  /** `o[k] = 1`: a new key goes last, a present key changes nothing. */
  function Insert(keys: seq<string>, k: string): (r: seq<string>)
    ensures forall x :: x in r <==> x in keys || x == k
    ensures |keys| <= |r| <= |keys| + 1 && r[..|keys|] == keys
    ensures Distinct(keys) ==> Distinct(r)
  {
    if k in keys then keys else keys + [k]
  }

  /** Inserting a key twice is inserting it once. */
  lemma InsertTwice(keys: seq<string>, k: string)
    ensures Insert(Insert(keys, k), k) == Insert(keys, k)
  {
  }

  /** The report cell for a key set: every key followed by ','. */
  function Flatten(keys: seq<string>): (s: string)
    ensures s == "" <==> keys == []
  {
    if keys == [] then "" else keys[0] + "," + Flatten(keys[1..])
  }

  lemma {:induction false} FlattenAppend(keys: seq<string>, k: string)
    ensures Flatten(keys + [k]) == Flatten(keys) + k + ","
  {
    if keys != [] {
      assert (keys + [k])[1..] == keys[1..] + [k];
      FlattenAppend(keys[1..], k);
    } else {
      assert [k][1..] == [];
    }
  }

  /** Reading a report cell back: the pieces between the ',' terminators. */
  function Split(s: string): seq<string>
    decreases |s|
  {
    match FindFirst(s, ",")
    case None => if s == "" then [] else [s]
    case Some(i) => [s[..i]] + Split(s[i + 1..])
  }

  /** A cell determines its key set when no key holds a ','. */
  lemma {:induction false} SplitFlatten(keys: seq<string>)
    requires forall k :: k in keys ==> ',' !in k
    ensures Split(Flatten(keys)) == keys
  {
    if keys != [] {
      var rest := Flatten(keys[1..]);
      NotContainsByFirstChar(keys[0], ",");
      FirstOccurrenceAfter(keys[0], ",", rest);
      var s := keys[0] + "," + rest;
      assert s[..|keys[0]|] == keys[0];
      assert s[|keys[0]| + 1..] == rest;
      SplitFlatten(keys[1..]);
      assert keys == [keys[0]] + keys[1..];
    }
  }

  /** The flattening loop of index.js (lines 115-117, 120-122, 125-127),
      appending to a cell that starts out empty. */
  method JoinKeys(keys: seq<string>) returns (s: string)
    ensures s == Flatten(keys)
  {
    s := "";
    var i := 0;
    while i < |keys|
      invariant 0 <= i <= |keys|
      invariant s == Flatten(keys[..i])
    {
      FlattenAppend(keys[..i], keys[i]);
      assert keys[..i + 1] == keys[..i] + [keys[i]];
      s := s + keys[i] + ",";
      i := i + 1;
    }
    assert keys[..i] == keys;
  }
}
