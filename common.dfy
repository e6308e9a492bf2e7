/** Wrapper types shared by every module of the model. */
module Common {

  /** A value that may be absent. A JSON `null` and a missing key are both `None`. */
  datatype Option<T> = None | Some(value: T) {
    function GetOr(default: T): T {
      match this
      case Some(v) => v
      case None => default
    }
  }

  /** The outcome of an operation that can raise. */
  datatype Result<T> = Ok(value: T) | Err(error: string)

  /** The state of one JSON file on disk, as the application finds it when it reads it:
      absent, not valid JSON, valid JSON of the wrong top-level kind (say a dict where a
      list is expected), or parsed into the expected shape. */
  datatype Stored<T> = Missing | Unparsable | WrongShape | Parsed(value: T)

  /** The idiom `data = []; try: data = json.load(f); if not isinstance(data, list): data = []
      except: ...` shared by the log and journal writers: anything but a parsed list is []. */
  function ListOrEmpty<T>(f: Stored<seq<T>>): (r: seq<T>)
    ensures f.Parsed? ==> r == f.value
    ensures !f.Parsed? ==> r == []
  {
    if f.Parsed? then f.value else []
  }

  /** `[x for x in s if keep(x)]`: the comprehension every deletion in the application uses. */
  function Filter<T>(s: seq<T>, keep: T -> bool): (r: seq<T>)
    ensures |r| <= |s|
    ensures forall i :: 0 <= i < |r| ==> keep(r[i]) && r[i] in s
  {
    if s == [] then [] else (if keep(s[0]) then [s[0]] else []) + Filter(s[1..], keep)
  }

  /** Filtering works piece by piece, which is what "the others keep their order" means. */
  lemma {:induction false} FilterAppend<T>(a: seq<T>, b: seq<T>, keep: T -> bool)
    ensures Filter(a + b, keep) == Filter(a, keep) + Filter(b, keep)
  {
    if a == [] {
      assert a + b == b;
    } else {
      assert (a + b)[1..] == a[1..] + b;
      FilterAppend(a[1..], b, keep);
    }
  }

  /** An element is kept exactly when it satisfies the condition: nothing kept is dropped. */
  lemma {:induction false} FilterMembership<T>(s: seq<T>, keep: T -> bool, x: T)
    ensures x in Filter(s, keep) <==> x in s && keep(x)
  {
    if s != [] {
      FilterMembership(s[1..], keep, x);
      assert s == [s[0]] + s[1..];
    }
  }

  /** Filtering an already filtered list changes nothing. */
  lemma {:induction false} FilterIdempotent<T>(s: seq<T>, keep: T -> bool)
    ensures Filter(Filter(s, keep), keep) == Filter(s, keep)
  {
    if s != [] {
      FilterIdempotent(s[1..], keep);
      FilterAppend(if keep(s[0]) then [s[0]] else [], Filter(s[1..], keep), keep);
    }
  }

  /** A filter that keeps every element gives the list back unchanged. */
  lemma {:induction false} FilterKeepsAll<T>(s: seq<T>, keep: T -> bool)
    requires forall i :: 0 <= i < |s| ==> keep(s[i])
    ensures Filter(s, keep) == s
  {
    if s != [] {
      FilterKeepsAll(s[1..], keep);
    }
  }

  /** A filter that drops an element of `s` is shorter than `s`. */
  lemma {:induction false} FilterShorter<T>(s: seq<T>, keep: T -> bool, x: T)
    requires x in s && !keep(x)
    ensures |Filter(s, keep)| < |s|
  {
    if s[0] != x {
      FilterShorter(s[1..], keep, x);
    }
  }

  /** What a double click on a row of a history table ends in: nothing, an exception, or
      the detail window of the entry at `index`. */
  datatype ClickOutcome = Nothing | Crash | Opened(index: nat)

  /** The index of the first element satisfying `p`: what a loop that stops at its first
      hit finds. */
  function FirstWhere<T>(s: seq<T>, p: T -> bool): (r: Option<nat>)
    ensures r.Some? ==> r.value < |s| && p(s[r.value])
    ensures r.Some? ==> forall j :: 0 <= j < r.value ==> !p(s[j])
    ensures r.None? ==> forall j :: 0 <= j < |s| ==> !p(s[j])
  {
    if s == [] then None
    else if p(s[0]) then Some(0)
    else match FirstWhere(s[1..], p)
         case Some(k) => Some(k + 1)
         case None => None
  }

  /** `for x in s: if p(x): ...; break`: the loop finds the first hit. */
  method FindFirst<T>(s: seq<T>, p: T -> bool) returns (found: Option<nat>)
    ensures found == FirstWhere(s, p)
  {
    found := None;
    var i := 0;
    while i < |s|
      invariant 0 <= i <= |s|
      invariant forall j :: 0 <= j < i ==> !p(s[j])
    {
      if p(s[i]) {
        found := Some(i);
        break;
      }
      i := i + 1;
    }
    FirstWhereUnique(s, p, found);
  }

  /** The first hit is the only index that is a hit with none before it. */
  lemma FirstWhereUnique<T>(s: seq<T>, p: T -> bool, found: Option<nat>)
    requires found.Some? ==> found.value < |s| && p(s[found.value])
    requires found.Some? ==> forall j :: 0 <= j < found.value ==> !p(s[j])
    requires found.None? ==> forall j :: 0 <= j < |s| ==> !p(s[j])
    ensures found == FirstWhere(s, p)
  {
  }

  /** The second components whose flag is set, in order: what a loop that appends some of
      the items it visits to a list leaves in that list. */
  function Picked<T>(seen: seq<(bool, T)>): (r: seq<T>)
    ensures |r| <= |seen|
  {
    if seen == [] then []
    else
      var n := |seen| - 1;
      Picked(seen[..n]) + (if seen[n].0 then [seen[n].1] else [])
  }

  lemma {:induction false} PickedMembership<T>(seen: seq<(bool, T)>, x: T)
    ensures x in Picked(seen) <==> exists k :: 0 <= k < |seen| && seen[k] == (true, x)
  {
    if seen != [] {
      var n := |seen| - 1;
      PickedMembership(seen[..n], x);
      if exists k :: 0 <= k < n && seen[..n][k] == (true, x) {
        var k :| 0 <= k < n && seen[..n][k] == (true, x);
        assert seen[k] == (true, x);
      }
      if exists k :: 0 <= k < |seen| && seen[k] == (true, x) {
        var k :| 0 <= k < |seen| && seen[k] == (true, x);
        if k < n { assert seen[..n][k] == (true, x); }
      }
    }
  }
}
