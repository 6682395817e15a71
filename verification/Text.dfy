/** The string operations the provider uses on its keys and lists:
    first occurrence, removal of the first occurrence, splitting and
    comma-terminated lists. */
module Text {
  import opened Wrappers

  const SEPARATOR := ','

  predicate OccursAt(s: string, sub: string, p: nat) {
    p + |sub| <= |s| && s[p..p + |sub|] == sub
  }

  /** The least position at or after `from` where `sub` occurs. */
  function IndexFrom(s: string, sub: string, from: nat): (r: Option<nat>)
    requires from <= |s|
    ensures r.Some? ==> from <= r.value && OccursAt(s, sub, r.value)
    ensures r.Some? ==> forall q: nat :: from <= q < r.value ==> !OccursAt(s, sub, q)
    ensures r.None? ==> forall q: nat :: from <= q ==> !OccursAt(s, sub, q)
    decreases |s| - from
  {
    if OccursAt(s, sub, from) then Some(from)
    else if from == |s| then None
    else IndexFrom(s, sub, from + 1)
  }

  /** Removes the first occurrence of `sub`, if there is one. */
  function RemoveFirst(s: string, sub: string): (r: string)
    ensures |r| == |s| || |r| + |sub| == |s|
  {
    match IndexFrom(s, sub, 0)
    case None => s
    case Some(p) => s[..p] + s[p + |sub|..]
  }

  lemma RemoveFirstAt(s: string, sub: string, p: nat)
    requires OccursAt(s, sub, p)
    requires forall q: nat :: q < p ==> !OccursAt(s, sub, q)
    ensures RemoveFirst(s, sub) == s[..p] + s[p + |sub|..]
  {
    assert IndexFrom(s, sub, 0) == Some(p);
  }

  /** What is removed stood at the first place where the text is found, and where
      it is not found nothing is. */
  lemma RemoveFirstIs(s: string, sub: string) returns (p: nat)
    ensures p <= |s| && forall q :: 0 <= q < p ==> !(sub <= s[q..])
    ensures if sub <= s[p..] then RemoveFirst(s, sub) == s[..p] + s[p + |sub|..]
            else p == |s| && RemoveFirst(s, sub) == s
  {
    var found := IndexFrom(s, sub, 0);
    p := if found.Some? then found.value else |s|;
    forall q: nat | q <= |s| ensures OccursAt(s, sub, q) <==> sub <= s[q..] {
      OccursIsPrefix(s, sub, q);
    }
  }

  lemma OccursIsPrefix(s: string, sub: string, q: nat)
    requires q <= |s|
    ensures OccursAt(s, sub, q) <==> sub <= s[q..]
  {
    if q + |sub| <= |s| {
      assert s[q..q + |sub|] == s[q..][..|sub|];
    }
  }

  function Split(s: string, sep: char): (parts: seq<string>)
    ensures |parts| >= 1
    ensures forall i :: 0 <= i < |parts| ==> sep !in parts[i]
  {
    if s == "" then [""]
    else
      var rest := Split(s[1..], sep);
      if s[0] == sep then [""] + rest else [[s[0]] + rest[0]] + rest[1..]
  }

  /** A text without the separator is one piece; up to the first separator is the
      first piece, and what follows it is split in turn. */
  lemma {:induction false} SplitIs(piece: string, rest: string, sep: char)
    requires sep !in piece
    ensures Split(piece, sep) == [piece]
    ensures Split(piece + [sep] + rest, sep) == [piece] + Split(rest, sep)
  {
    var s := piece + [sep] + rest;
    if piece == "" {
      assert s[1..] == rest;
    } else {
      SplitIs(piece[1..], rest, sep);
      assert s[1..] == piece[1..] + [sep] + rest;
      assert [piece[0]] + piece[1..] == piece;
    }
  }

  predicate SeparatorFree(list: seq<string>) {
    forall i :: 0 <= i < |list| ==> SEPARATOR !in list[i]
  }

  /** Every element followed by the separator: "a,b,c,". */
  function Terminated(list: seq<string>): string {
    if list == [] then "" else list[0] + [SEPARATOR] + Terminated(list[1..])
  }

  lemma {:induction false} TerminatedConcat(a: seq<string>, b: seq<string>)
    ensures Terminated(a + b) == Terminated(a) + Terminated(b)
  {
    if a == [] {
      assert a + b == b;
    } else {
      assert (a + b)[1..] == a[1..] + b;
      TerminatedConcat(a[1..], b);
    }
  }

  lemma SplitElement(e: string, rest: string)
    requires SEPARATOR !in e
    ensures Split(e + [SEPARATOR] + rest, SEPARATOR) == [e] + Split(rest, SEPARATOR)
  {
    SplitIs(e, rest, SEPARATOR);
  }

  /** Each element is followed by a comma. */
  lemma TerminatedIs(list: seq<string>)
    ensures Terminated(list) == if list == [] then "" else list[0] + "," + Terminated(list[1..])
  {
  }

  /** Splitting undoes termination, up to the empty piece after the last separator. */
  lemma {:induction false} SplitTerminated(list: seq<string>)
    requires SeparatorFree(list)
    ensures Split(Terminated(list), SEPARATOR) == list + [""]
  {
    if list != [] {
      SplitElement(list[0], Terminated(list[1..]));
      SplitTerminated(list[1..]);
      assert list == [list[0]] + list[1..];
    }
  }

  lemma TerminatedInjective(a: seq<string>, b: seq<string>)
    requires SeparatorFree(a) && SeparatorFree(b)
    requires Terminated(a) == Terminated(b)
    ensures a == b
  {
    SplitTerminated(a);
    SplitTerminated(b);
    assert a == (a + [""])[..|a|] && b == (b + [""])[..|b|];
  }
}
