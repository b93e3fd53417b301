/** Python's `path.split("__", 1)` on a relationship path such as `author__blog__site`. */
module PathSplit {
  import opened Results

  /** Django's lookup separator. */
  const Sep: string := "__"

  /** A separator starts at index `i` of `s`. */
  predicate SepAt(s: string, i: int) {
    0 <= i && i + 1 < |s| && s[i] == '_' && s[i + 1] == '_'
  }

  /** `s` contains no separator at all. */
  predicate NoSep(s: string) {
    forall i :: 0 <= i < |s| ==> !SepAt(s, i)
  }

  /** `h` can stand before a separator that is then the leftmost one:
      it contains none itself and does not end in `_`. */
  predicate LeftmostHead(h: string) {
    NoSep(h) && (|h| == 0 || h[|h| - 1] != '_')
  }

  /** The leftmost separator at or after index `from`, as `str.find` reports it. */
  function FirstSep(s: string, from: nat): (r: Option<nat>)
    ensures r.Some? ==> from <= r.value && SepAt(s, r.value)
    ensures r.Some? ==> forall j :: from <= j < r.value ==> !SepAt(s, j)
    ensures r.None? ==> forall j :: from <= j ==> !SepAt(s, j)
    decreases |s| - from
  {
    if from + 1 >= |s| then None
    else if s[from] == '_' && s[from + 1] == '_' then Some(from)
    else FirstSep(s, from + 1)
  }

  /** Split at the leftmost separator, at most once: one part when there is
      none, otherwise the head before it and the whole remainder after it. */
  function Split(s: string): (parts: seq<string>)
    ensures |parts| == 1 || |parts| == 2
    ensures |parts| == 1 <==> NoSep(s)
    ensures |parts| == 1 ==> parts[0] == s
    ensures |parts| == 2 ==> s == parts[0] + Sep + parts[1] && LeftmostHead(parts[0])
  {
    match FirstSep(s, 0)
    case None => [s]
    case Some(i) =>
      HeadBeforeFirstSep(s, i);
      assert s == s[..i] + Sep + s[i + 2..];
      [s[..i], s[i + 2..]]
  }

  /** `Sep.join(parts)`. */
  function Join(parts: seq<string>): (s: string)
    decreases |parts|
  {
    if |parts| == 0 then ""
    else if |parts| == 1 then parts[0]
    else parts[0] + Sep + Join(parts[1..])
  }

  /** The prefix before the leftmost separator is a `LeftmostHead`. */
  lemma HeadBeforeFirstSep(s: string, i: nat)
    requires SepAt(s, i)
    requires forall j :: 0 <= j < i ==> !SepAt(s, j)
    ensures LeftmostHead(s[..i])
  {
    var h := s[..i];
    forall j | 0 <= j < |h|
      ensures !SepAt(h, j)
    {
      assert !SepAt(s, j);
    }
    if 0 < i {
      assert !SepAt(s, i - 1);
    }
  }

  /** Joining the parts of a split gives back the original path. */
  lemma JoinSplit(s: string)
    ensures Join(Split(s)) == s
  {
  }

  /** A head followed by a separator splits back into that head and the rest. */
  lemma SplitJoin(h: string, t: string)
    requires LeftmostHead(h)
    ensures Split(h + Sep + t) == [h, t]
  {
    var s := h + Sep + t;
    assert SepAt(s, |h|);
    forall j | 0 <= j < |h|
      ensures !SepAt(s, j)
    {
      if j + 1 < |h| {
        assert !SepAt(h, j);
        assert s[j] == h[j] && s[j + 1] == h[j + 1];
      } else {
        assert s[j] == h[|h| - 1];
      }
    }
    assert FirstSep(s, 0) == Some(|h|);
    assert s[..|h|] == h;
    assert s[|h| + 2..] == t;
  }

  /** A path without a separator splits into itself alone. */
  lemma SplitNoSep(s: string)
    requires NoSep(s)
    ensures Split(s) == [s]
  {
  }
}
