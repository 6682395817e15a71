/** Reference lists "a,b,c," and what removing the text "c," does to them.

    The index removes a contract from a list by deleting the first occurrence
    of the contract id and a separator as a substring.  This module says
    exactly when that removes one list element and nothing else. */
module ReferenceList {
  import opened Wrappers
  import opened Text

  predicate HasSuffix(s: string, suffix: string) {
    |suffix| <= |s| && s[|s| - |suffix|..] == suffix
  }

  /** The list without the first element equal to `e`. */
  function RemoveElement(list: seq<string>, e: string): (r: seq<string>)
    ensures e !in list ==> r == list
    ensures e in list ==> |r| == |list| - 1
    ensures forall x :: x in r ==> x in list
  {
    if list == [] then []
    else if list[0] == e then list[1..]
    else [list[0]] + RemoveElement(list[1..], e)
  }

  /** The index of the first element that ends in `c`. */
  function FirstWithSuffix(list: seq<string>, c: string): (i: nat)
    requires c in list
    ensures i < |list| && HasSuffix(list[i], c)
    ensures forall j :: 0 <= j < i ==> !HasSuffix(list[j], c)
  {
    if HasSuffix(list[0], c) then 0 else 1 + FirstWithSuffix(list[1..], c)
  }

  /** The first element that ends in `c` is `c`, or is followed by `c`. */
  predicate DeletionExact(list: seq<string>, c: string)
    requires c in list
  {
    var i := FirstWithSuffix(list, c);
    list[i] == c || (i + 1 < |list| && list[i + 1] == c)
  }

  /** What deleting the first occurrence of "c," leaves. */
  function AfterDeletion(list: seq<string>, c: string): string {
    RemoveFirst(Terminated(list), c + [SEPARATOR])
  }

  lemma HeadOccurrence(e: string, rest: string, c: string, q: nat)
    requires SEPARATOR !in e && SEPARATOR !in c
    requires q <= |e| && OccursAt(e + [SEPARATOR] + rest, c + [SEPARATOR], q)
    ensures q + |c| == |e| && HasSuffix(e, c)
  {
    var s, sub := e + [SEPARATOR] + rest, c + [SEPARATOR];
    assert s[|e|] == SEPARATOR && forall k :: 0 <= k < |e| ==> s[k] == e[k];
    assert s[q + |c|] == sub[|c|] == SEPARATOR;
    forall k | 0 <= k < |c| ensures s[q + k] == c[k] {
      assert s[q..q + |sub|][k] == sub[k];
    }
    assert q + |c| == |e|;
    assert e[q..] == s[q..q + |sub|][..|c|] == c;
  }

  lemma {:induction false} NoEarlierOccurrence(list: seq<string>, c: string, i: nat, q: nat)
    requires SeparatorFree(list) && SEPARATOR !in c && i < |list|
    requires HasSuffix(list[i], c) && forall j :: 0 <= j < i ==> !HasSuffix(list[j], c)
    requires q < |Terminated(list[..i])| + |list[i]| - |c|
    ensures !OccursAt(Terminated(list), c + [SEPARATOR], q)
  {
    var e, rest, sub := list[0], Terminated(list[1..]), c + [SEPARATOR];
    assert list[..0] == [];
    if OccursAt(Terminated(list), sub, q) {
      if q <= |e| {
        HeadOccurrence(e, rest, c, q);
      } else {
        var p := q - |e| - 1;
        assert Terminated(list)[q..q + |sub|] == rest[p..p + |sub|];
        assert list[..i][1..] == list[1..][..i - 1] && list[..i][0] == e;
        NoEarlierOccurrence(list[1..], c, i - 1, p);
      }
    }
  }

  lemma FirstOccurrence(list: seq<string>, c: string, i: nat)
    requires SeparatorFree(list) && SEPARATOR !in c && i < |list|
    requires HasSuffix(list[i], c) && forall j :: 0 <= j < i ==> !HasSuffix(list[j], c)
    ensures forall q: nat :: q < |Terminated(list[..i])| + |list[i]| - |c| ==>
              !OccursAt(Terminated(list), c + [SEPARATOR], q)
  {
    forall q: nat | q < |Terminated(list[..i])| + |list[i]| - |c|
      ensures !OccursAt(Terminated(list), c + [SEPARATOR], q)
    {
      NoEarlierOccurrence(list, c, i, q);
    }
  }

  lemma TerminatedAround(list: seq<string>, i: nat)
    requires i < |list|
    ensures Terminated(list) ==
            Terminated(list[..i]) + list[i] + [SEPARATOR] + Terminated(list[i + 1..])
  {
    assert list == list[..i] + list[i..];
    TerminatedConcat(list[..i], list[i..]);
    assert list[i..][1..] == list[i + 1..];
  }

  /** The deletion always ends on an element boundary: it cuts `c` and one
      separator from the end of the first element that ends in `c`. */
  lemma DeletionCutsSuffix(list: seq<string>, c: string)
    requires SeparatorFree(list) && SEPARATOR !in c && c in list
    ensures var i := FirstWithSuffix(list, c);
            AfterDeletion(list, c) ==
            Terminated(list[..i]) + list[i][..|list[i]| - |c|] + Terminated(list[i + 1..])
  {
    hide *;
    var i := FirstWithSuffix(list, c);
    AfterDeletionIs(list, c);
    var left, e, right := Terminated(list[..i]), list[i], Terminated(list[i + 1..]);
    SuffixStem(e, c);
    var stem := e[..|e| - |c|];
    TerminatedAround(list, i);
    Regroup(left, stem, c, [SEPARATOR], right);
    FirstOccurrence(list, c, i);
    RemoveMiddle(left + stem, c + [SEPARATOR], right);
  }

  lemma AfterDeletionIs(list: seq<string>, c: string)
    ensures AfterDeletion(list, c) == RemoveFirst(Terminated(list), c + [SEPARATOR])
  {
  }

  lemma SuffixStem(e: string, c: string)
    requires HasSuffix(e, c)
    ensures |c| <= |e| && e == e[..|e| - |c|] + c
  {
  }

  lemma Regroup(a: string, b: string, c: string, d: string, e: string)
    ensures a + (b + c) + d + e == (a + b) + (c + d) + e
  {
  }

  lemma RemoveMiddle(front: string, sub: string, back: string)
    requires forall q: nat :: q < |front| ==> !OccursAt(front + sub + back, sub, q)
    ensures RemoveFirst(front + sub + back, sub) == front + back
  {
    var s, p := front + sub + back, |front|;
    assert s[p..p + |sub|] == sub;
    RemoveFirstAt(s, sub, p);
    assert s[..p] == front && s[p + |sub|..] == back;
  }

  lemma {:induction false} RemoveElementAt(list: seq<string>, e: string, j: nat)
    requires j < |list| && list[j] == e && e !in list[..j]
    ensures RemoveElement(list, e) == list[..j] + list[j + 1..]
  {
    if j > 0 {
      assert list[0] == list[..j][0];
      assert list[1..][..j - 1] == list[..j][1..];
      RemoveElementAt(list[1..], e, j - 1);
      assert list[..j] == [list[0]] + list[1..][..j - 1];
    }
  }

  lemma {:induction false} FirstIndexOf(list: seq<string>, e: string) returns (j: nat)
    requires e in list
    ensures j < |list| && list[j] == e && e !in list[..j]
  {
    if list[0] == e {
      j := 0;
    } else {
      var k := FirstIndexOf(list[1..], e);
      j := k + 1;
      assert list[..j] == [list[0]] + list[1..][..k];
    }
  }

  lemma CancelPrefix(p: string, a: string, b: string)
    ensures p + a == p + b <==> a == b
  {
    if p + a == p + b {
      assert a == (p + a)[|p|..] && b == (p + b)[|p|..];
    }
  }

  /** When an element before `c` ends in `c`, removing the element `c` instead
      would leave the cut text followed by `c` and the other elements. */
  lemma ExpectedAroundSuffix(list: seq<string>, c: string, i: nat, j: nat)
    requires i < j < |list| && list[j] == c && c !in list[..j] && HasSuffix(list[i], c)
    ensures Terminated(RemoveElement(list, c)) ==
            Terminated(list[..i]) + list[i][..|list[i]| - |c|] +
            Terminated([c] + (list[i + 1..j] + list[j + 1..]))
  {
    hide *;
    var e, middle := list[i], list[i + 1..j] + list[j + 1..];
    RemoveElementAt(list, c, j);
    assert list[..j] == list[..i] + ([e] + list[i + 1..j]);
    ConcatAssociates(list[..i], [e], list[i + 1..j], list[j + 1..]);
    TerminatedConcat(list[..i], [e] + middle);
    TerminatedStem(e, c, middle);
  }

  lemma ConcatAssociates<T>(a: seq<T>, b: seq<T>, c: seq<T>, d: seq<T>)
    ensures a + (b + c) + d == a + (b + (c + d))
  {
  }

  lemma TerminatedStem(e: string, c: string, rest: seq<string>)
    requires HasSuffix(e, c)
    ensures Terminated([e] + rest) == e[..|e| - |c|] + Terminated([c] + rest)
  {
    assert ([e] + rest)[1..] == rest;
    assert ([c] + rest)[1..] == rest;
    assert e == e[..|e| - |c|] + c;
  }

  lemma DeletionBeforeElement(list: seq<string>, c: string, i: nat, j: nat)
    requires SeparatorFree(list) && SEPARATOR !in c && c in list
    requires i == FirstWithSuffix(list, c) && i < j < |list|
    requires list[j] == c && c !in list[..j]
    ensures AfterDeletion(list, c) == Terminated(RemoveElement(list, c)) <==> list[i + 1] == c
  {
    hide Terminated, RemoveElement, AfterDeletion;
    DeletionCutsSuffix(list, c);
    ExpectedAroundSuffix(list, c, i, j);
    CancelPrefix(Terminated(list[..i]) + list[i][..|list[i]| - |c|],
                 Terminated(list[i + 1..]), Terminated([c] + (list[i + 1..j] + list[j + 1..])));
    FollowedBy(list, c, i, j);
  }

  /** The rest of the list starts with `c` exactly if moving `c` to its front changes nothing. */
  lemma FollowedBy(list: seq<string>, c: string, i: nat, j: nat)
    requires SeparatorFree(list) && SEPARATOR !in c
    requires i < j < |list| && list[j] == c && c !in list[..j]
    ensures Terminated(list[i + 1..]) == Terminated([c] + (list[i + 1..j] + list[j + 1..])) <==> list[i + 1] == c
  {
    hide Terminated;
    var rest, moved := list[i + 1..], [c] + (list[i + 1..j] + list[j + 1..]);
    forall k | 0 <= k < j ensures list[k] != c {
      assert list[..j][k] == list[k];
    }
    if Terminated(rest) == Terminated(moved) {
      TerminatedInjective(rest, moved);
      assert list[i + 1] == rest[0] == c;
    }
    if list[i + 1] == c {
      assert j == i + 1;
      assert moved == rest;
    }
  }

  /** Deleting the substring removes exactly the element, if and only if the
      first element ending in `c` is `c` itself or stands right before it. */
  lemma DeletionRemovesElement(list: seq<string>, c: string)
    requires SeparatorFree(list) && SEPARATOR !in c && c in list
    ensures AfterDeletion(list, c) == Terminated(RemoveElement(list, c)) <==> DeletionExact(list, c)
  {
    hide AfterDeletion, Terminated, RemoveElement;
    var i := FirstWithSuffix(list, c);
    var j := FirstIndexOf(list, c);
    if i < j {
      DeletionBeforeElement(list, c, i, j);
      assert list[i] == list[..j][i];
    } else {
      assert i == j by { assert HasSuffix(list[j], c); }
      DeletionOfElement(list, c, i);
    }
  }

  lemma DeletionOfElement(list: seq<string>, c: string, i: nat)
    requires SeparatorFree(list) && SEPARATOR !in c && c in list
    requires i == FirstWithSuffix(list, c) && list[i] == c && c !in list[..i]
    ensures AfterDeletion(list, c) == Terminated(RemoveElement(list, c))
  {
    hide *;
    DeletionCutsSuffix(list, c);
    RemoveElementAt(list, c, i);
    TerminatedConcat(list[..i], list[i + 1..]);
    assert c[..0] == "";
    assert Terminated(list[..i]) + "" == Terminated(list[..i]);
  }

  /** A list on which the deletion goes wrong: removing "b" from "ab,c,b," gives "ac,b,". */
  lemma DeletionCanMergeElements()
    ensures var list := ["ab", "c", "b"];
            AfterDeletion(list, "b") == Terminated(["ac", "b"]) && !DeletionExact(list, "b")
  {
    var list := ["ab", "c", "b"];
    assert HasSuffix(list[0], "b");
    assert FirstWithSuffix(list, "b") == 0;
    DeletionCutsSuffix(list, "b");
    assert list[..0] == [] && list[0][..1] == "a" && list[1..] == ["c", "b"];
    assert Terminated(["c", "b"]) == "c," + Terminated(["b"]);
    assert Terminated(["ac", "b"]) == "ac," + Terminated(["b"]);
  }

  /** Among ids of one length the deletion is always exact. */
  lemma DeletionExactForFixedLength(list: seq<string>, c: string)
    requires SeparatorFree(list) && SEPARATOR !in c && c in list
    requires forall x :: x in list ==> |x| == |c|
    ensures AfterDeletion(list, c) == Terminated(RemoveElement(list, c))
  {
    var i := FirstWithSuffix(list, c);
    assert list[i] == list[i][0..] == c;
    DeletionRemovesElement(list, c);
  }
}
