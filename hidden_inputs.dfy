/** The `hidden_inputs` dict: filled from the hidden `<input>` elements, then
    completed with the scanner's tokens where the DOM gave nothing usable. */
module HiddenInputs {
  import opened Common
  import Scanner

  /** One hidden input as the DOM query reports it: its name and value, each possibly null. */
  datatype HiddenPair = HiddenPair(name: Option<string>, value: Option<string>)

  type Fields = map<string, Option<string>>

  /** `p.get("name")` is truthy and names `k`. */
  predicate Names(p: HiddenPair, k: string)
  {
    Truthy(p.name) && p.name.value == k
  }

  /** `d.get(k)`: the value stored under `k`, None when `k` is absent. */
  function Get(m: Fields, k: string): Option<string>
  {
    if k in m then m[k] else None
  }

  /** One step of the loop: a pair with a truthy name is stored, overwriting. */
  function Put(m: Fields, p: HiddenPair): Fields
  {
    if Truthy(p.name) then m[p.name.value := p.value] else m
  }

  /** The map after storing `pairs` in order into `m`. */
  function Fold(m: Fields, pairs: seq<HiddenPair>): Fields
    decreases |pairs|
  {
    if pairs == [] then m else Put(Fold(m, pairs[..|pairs| - 1]), pairs[|pairs| - 1])
  }

  /** A key no pair names keeps what `m` had for it (present or absent). */
  lemma {:induction false} FoldUnnamed(m: Fields, pairs: seq<HiddenPair>, k: string)
    requires forall i :: 0 <= i < |pairs| ==> !Names(pairs[i], k)
    ensures k in Fold(m, pairs) <==> k in m
    ensures k in m ==> Fold(m, pairs)[k] == m[k]
    decreases |pairs|
  {
    if pairs != [] {
      var prefix := pairs[..|pairs| - 1];
      assert forall i :: 0 <= i < |prefix| ==> prefix[i] == pairs[i];
      FoldUnnamed(m, prefix, k);
    }
  }

  /** A key named by some pair is stored with the value of the LAST pair naming it. */
  lemma {:induction false} FoldLastWins(m: Fields, pairs: seq<HiddenPair>, k: string, i: nat)
    requires i < |pairs| && Names(pairs[i], k)
    requires forall j :: i < j < |pairs| ==> !Names(pairs[j], k)
    ensures k in Fold(m, pairs) && Fold(m, pairs)[k] == pairs[i].value
    decreases |pairs|
  {
    var n := |pairs| - 1;
    var prefix := pairs[..n];
    if i < n {
      assert forall j :: 0 <= j < |prefix| ==> prefix[j] == pairs[j];
      FoldLastWins(m, prefix, k, i);
    }
  }

  /** The keys of the folded map are those of `m` and the truthy names of the pairs. */
  lemma {:induction false} FoldKeys(m: Fields, pairs: seq<HiddenPair>, k: string)
    ensures k in Fold(m, pairs) <==> k in m || exists i :: 0 <= i < |pairs| && Names(pairs[i], k)
    decreases |pairs|
  {
    if pairs != [] {
      var n := |pairs| - 1;
      var prefix := pairs[..n];
      FoldKeys(m, prefix, k);
      if exists i :: 0 <= i < |pairs| && Names(pairs[i], k) {
        var i :| 0 <= i < |pairs| && Names(pairs[i], k);
        if i < n {
          assert prefix[i] == pairs[i];
        }
      }
      if exists i :: 0 <= i < |prefix| && Names(prefix[i], k) {
        var i :| 0 <= i < |prefix| && Names(prefix[i], k);
        assert pairs[i] == prefix[i];
      }
    }
  }

  /** The fallback for one key: the scanner's token replaces a missing or falsy value,
      and only when the scanner found a truthy token. */
  function Fill(m: Fields, k: string, found: Option<string>): Fields
  {
    if Truthy(found) && !Truthy(Get(m, k)) then m[k := found] else m
  }

  /** The heuristic merge for `secret_key`, then `SessionID`. */
  function Merge(m: Fields, h: Scanner.Heuristics): Fields
  {
    Fill(Fill(m, Scanner.SecretKey, h.secretKey), Scanner.SessionId, h.sessionId)
  }

  /** The fallback found for key `k`, for the two keys the scanner looks for. */
  function FoundFor(h: Scanner.Heuristics, k: string): Option<string>
  {
    if k == Scanner.SecretKey then h.secretKey
    else if k == Scanner.SessionId then h.sessionId
    else None
  }

  /** Fallback merge: a truthy DOM value is never replaced; a missing or falsy one is
      replaced by the scanner's token when there is one; every other key, and every
      key the scanner has nothing for, is left as it was. */
  lemma MergeSpec(m: Fields, h: Scanner.Heuristics, k: string)
    ensures Truthy(Get(m, k)) ==> Get(Merge(m, h), k) == Get(m, k)
    ensures !Truthy(Get(m, k)) && Truthy(FoundFor(h, k)) ==> Get(Merge(m, h), k) == FoundFor(h, k)
    ensures !Truthy(FoundFor(h, k)) ==> (k in Merge(m, h) <==> k in m) && Get(Merge(m, h), k) == Get(m, k)
    ensures k != Scanner.SecretKey && k != Scanner.SessionId ==>
              (k in Merge(m, h) <==> k in m) && (k in m ==> Merge(m, h)[k] == m[k])
  {
  }

  /** The `hidden_inputs` dict of one extraction, updated in place. */
  class HiddenInputs {
    var fields: Fields

    constructor ()
      ensures fields == map[]
    {
      fields := map[];
    }

    /** The loop over the DOM's hidden inputs: each pair with a truthy name is
        stored under it, a later pair overwriting an earlier one. */
    method AddPairs(pairs: seq<HiddenPair>)
      modifies this
      ensures fields == Fold(old(fields), pairs)
    {
      var i := 0;
      while i < |pairs|
        invariant 0 <= i <= |pairs|
        invariant fields == Fold(old(fields), pairs[..i])
      {
        var p := pairs[i];
        if p.name.Some? && p.name.value != "" {
          fields := fields[p.name.value := p.value];
        }
        assert pairs[..i + 1][..i] == pairs[..i];
        i := i + 1;
      }
      assert pairs[..i] == pairs;
    }

    /** The heuristic merge: fill `secret_key` and `SessionID` from the scanner where
        the DOM value is missing or falsy. */
    method MergeFallback(h: Scanner.Heuristics)
      modifies this
      ensures fields == Merge(old(fields), h)
    {
      if Truthy(h.secretKey) && !Truthy(Get(fields, Scanner.SecretKey)) {
        fields := fields[Scanner.SecretKey := h.secretKey];
      }
      if Truthy(h.sessionId) && !Truthy(Get(fields, Scanner.SessionId)) {
        fields := fields[Scanner.SessionId := h.sessionId];
      }
    }
  }
}
