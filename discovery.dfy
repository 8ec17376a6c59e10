/**
 The loop shared by both versions of `fetch_comics`: go through the listed
 metadata files in order, and for each one either skip it (it has no image),
 store a record under a key in the result dictionary (overwriting what an
 earlier file stored there), or raise, which ends the whole loop.

 `process` says what one file does; it is a parameter here so that the
 properties of the loop are proved once, whatever the file format.
 */
module Discovery {

  datatype Result<T, E> = Ok(value: T) | Err(error: E)

  /** What processing one metadata file does to the result dictionary. */
  datatype Outcome<K, V, E> = Skip | Store(key: K, value: V) | Raise(error: E)

  /** One iteration of the loop, applied to the dictionary built so far. */
  function Step<K, V, E>(comics: map<K, V>, out: Outcome<K, V, E>): Result<map<K, V>, E>
  {
    match out
    case Skip => Ok(comics)
    case Store(k, v) => Ok(comics[k := v])
    case Raise(e) => Err(e)
  }

  /** The loop over a listing, from an empty dictionary; the first exception ends it. */
  function Fold<K, V, E>(process: string -> Outcome<K, V, E>, listing: seq<string>): Result<map<K, V>, E>
    decreases |listing|
  {
    if listing == [] then Ok(map[])
    else match Fold(process, listing[..|listing| - 1])
      case Err(e) => Err(e)
      case Ok(comics) => Step(comics, process(listing[|listing| - 1]))
  }

  /** Processing the next file extends the loop by one step. */
  lemma FoldSnoc<K, V, E>(process: string -> Outcome<K, V, E>, listing: seq<string>, i: nat)
    requires i < |listing|
    ensures Fold(process, listing[..i + 1]) ==
            match Fold(process, listing[..i])
            case Err(e) => Err(e)
            case Ok(comics) => Step(comics, process(listing[i]))
  {
    assert listing[..i + 1][..i] == listing[..i];
  }

  /** Once the loop has raised, the rest of the listing does not matter. */
  lemma {:induction false} FoldErrSticks<K, V, E>(process: string -> Outcome<K, V, E>, listing: seq<string>, n: nat)
    requires n <= |listing| && Fold(process, listing[..n]).Err?
    ensures Fold(process, listing) == Fold(process, listing[..n])
    decreases |listing| - n
  {
    if n < |listing| {
      var init := listing[..|listing| - 1];
      assert init[..n] == listing[..n];
      FoldErrSticks(process, init, n);
    } else {
      assert listing[..n] == listing;
    }
  }

  /**
   The loop succeeds exactly when no listed file raises, and otherwise fails
   with the exception of the first file that raises.
   */
  lemma {:induction false} FoldFailure<K, V, E>(process: string -> Outcome<K, V, E>, listing: seq<string>)
    ensures Fold(process, listing).Ok? <==> forall i :: 0 <= i < |listing| ==> !process(listing[i]).Raise?
    ensures Fold(process, listing).Err? ==>
              exists i :: 0 <= i < |listing| && process(listing[i]) == Raise(Fold(process, listing).error)
                && forall j :: 0 <= j < i ==> !process(listing[j]).Raise?
    decreases |listing|
  {
    if listing != [] {
      var n := |listing| - 1;
      var init := listing[..n];
      FoldFailure(process, init);
      assert forall i :: 0 <= i < n ==> init[i] == listing[i];
      if Fold(process, init).Err? {
        var i :| 0 <= i < n && process(init[i]) == Raise(Fold(process, init).error)
                 && forall j :: 0 <= j < i ==> !process(init[j]).Raise?;
        assert process(listing[i]) == Raise(Fold(process, listing).error);
      }
    }
  }

  /** The keys are exactly those that some listed file stores under. */
  lemma {:induction false} FoldKeys<K, V, E>(process: string -> Outcome<K, V, E>, listing: seq<string>,
                                             comics: map<K, V>)
    requires Fold(process, listing) == Ok(comics)
    ensures forall k :: k in comics <==>
              exists i :: 0 <= i < |listing| && process(listing[i]).Store? && process(listing[i]).key == k
    decreases |listing|
  {
    if listing != [] {
      var n := |listing| - 1;
      var init := listing[..n];
      var out := process(listing[n]);
      var before := Fold(process, init).value;
      FoldKeys(process, init, before);
      assert comics.Keys == before.Keys + (if out.Store? then {out.key} else {});
      forall k | k in comics
        ensures exists i :: 0 <= i < |listing| && process(listing[i]).Store? && process(listing[i]).key == k
      {
        if !(out.Store? && out.key == k) {
          var i :| 0 <= i < n && process(init[i]).Store? && process(init[i]).key == k;
          assert init[i] == listing[i];
        }
      }
      forall k, i | 0 <= i < |listing| && process(listing[i]).Store? && process(listing[i]).key == k
        ensures k in comics
      {
        if i < n {
          assert init[i] == listing[i];
        }
      }
    }
  }

  /** The file at index `i` is the last one of the listing that stores under `k`. */
  predicate LastStore<K(==), V, E>(process: string -> Outcome<K, V, E>, listing: seq<string>, k: K, i: int)
  {
    && 0 <= i < |listing|
    && process(listing[i]).Store? && process(listing[i]).key == k
    && forall j :: i < j < |listing| && process(listing[j]).Store? ==> process(listing[j]).key != k
  }

  /** Last write wins: the value under a key is the one stored by the last file storing under it. */
  lemma {:induction false} FoldLastWins<K, V, E>(process: string -> Outcome<K, V, E>, listing: seq<string>,
                                                 comics: map<K, V>, k: K)
    requires Fold(process, listing) == Ok(comics)
    requires k in comics
    ensures exists i :: LastStore(process, listing, k, i) && process(listing[i]).value == comics[k]
    decreases |listing|
  {
    var n := |listing| - 1;
    var init := listing[..n];
    var out := process(listing[n]);
    var before := Fold(process, init).value;
    if out.Store? && out.key == k {
      assert LastStore(process, listing, k, n);
    } else {
      assert k in before && before[k] == comics[k];
      FoldLastWins(process, init, before, k);
      var i :| LastStore(process, init, k, i) && process(init[i]).value == before[k];
      assert init[i] == listing[i];
      forall j | i < j < |listing| && process(listing[j]).Store? ensures process(listing[j]).key != k {
        if j < n {
          assert init[j] == listing[j];
        }
      }
      assert LastStore(process, listing, k, i);
    }
  }

  /** A skipped file contributes nothing: leaving it out of the listing changes nothing. */
  lemma {:induction false} FoldWithoutSkipped<K, V, E>(process: string -> Outcome<K, V, E>, listing: seq<string>,
                                                       i: nat)
    requires i < |listing| && process(listing[i]).Skip?
    ensures Fold(process, listing[..i] + listing[i + 1..]) == Fold(process, listing)
    decreases |listing|
  {
    var n := |listing| - 1;
    var rest := listing[..i] + listing[i + 1..];
    if i == n {
      assert rest == listing[..n];
    } else {
      var init := listing[..n];
      FoldWithoutSkipped(process, init, i);
      assert rest[..|rest| - 1] == init[..i] + init[i + 1..];
      assert rest[|rest| - 1] == listing[n];
    }
  }

  /** The number of files of the listing that store something. */
  function Stored<K, V, E>(process: string -> Outcome<K, V, E>, listing: seq<string>): nat
    decreases |listing|
  {
    if listing == [] then 0
    else Stored(process, listing[..|listing| - 1]) + (if process(listing[|listing| - 1]).Store? then 1 else 0)
  }

  /** There are at most as many entries as files that store, and so at most as many as listed files. */
  lemma {:induction false} FoldSize<K, V, E>(process: string -> Outcome<K, V, E>, listing: seq<string>,
                                             comics: map<K, V>)
    requires Fold(process, listing) == Ok(comics)
    ensures |comics| <= Stored(process, listing) <= |listing|
    decreases |listing|
  {
    if listing != [] {
      var n := |listing| - 1;
      var init := listing[..n];
      var before := Fold(process, init).value;
      FoldSize(process, init, before);
      var out := process(listing[n]);
      if out.Store? {
        assert comics.Keys == before.Keys + {out.key};
        assert |before.Keys + {out.key}| <= |before.Keys| + |{out.key}|;
      }
    }
  }
}
