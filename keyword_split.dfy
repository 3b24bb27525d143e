/**
  The keyword split used by the count route: `keyword.split(" ")` with
  Kotlin's semantics for a single one-character delimiter. Every piece is
  kept, empty ones included: `""` splits into `[""]` and `"a  b"` into
  `["a", "", "b"]`. `Join` is the inverse (`joinToString(" ")`).
 */
module KeywordSplit {

  /** Index of the first `c` in `s`, or `|s|` when `s` has none
      (Kotlin's `indexOf` answers -1 in that case). */
  function IndexOf(s: string, c: char): (i: nat)
    ensures i <= |s|
    ensures i < |s| ==> s[i] == c
    ensures forall j :: 0 <= j < i ==> s[j] != c
  {
    if s == [] then 0
    else if s[0] == c then 0
    else 1 + IndexOf(s[1..], c)
  }

  /** The pieces of `s` between occurrences of `sep`, in order. */
  function Split(s: string, sep: char): (pieces: seq<string>)
    ensures |pieces| >= 1
    decreases |s|
  {
    var i := IndexOf(s, sep);
    if i == |s| then [s]
    else [s[..i]] + Split(s[i + 1..], sep)
  }

  /** The pieces glued back together with `sep` between neighbours. */
  function Join(pieces: seq<string>, sep: char): string
  {
    if |pieces| == 0 then ""
    else if |pieces| == 1 then pieces[0]
    else pieces[0] + [sep] + Join(pieces[1..], sep)
  }

  /** No piece of a split contains the separator. */
  ghost predicate Separated(pieces: seq<string>, sep: char)
  {
    forall k :: 0 <= k < |pieces| ==> sep !in pieces[k]
  }

  lemma {:induction false} SplitPiecesHaveNoSeparator(s: string, sep: char)
    ensures Separated(Split(s, sep), sep)
    decreases |s|
  {
    var i := IndexOf(s, sep);
    if i < |s| {
      SplitPiecesHaveNoSeparator(s[i + 1..], sep);
      var rest := Split(s[i + 1..], sep);
      assert Split(s, sep) == [s[..i]] + rest;
      forall k | 0 <= k < |Split(s, sep)|
        ensures sep !in Split(s, sep)[k]
      {
        if k == 0 {
          assert forall j :: 0 <= j < i ==> s[..i][j] != sep;
        } else {
          assert Split(s, sep)[k] == rest[k - 1];
        }
      }
    }
  }

  /** Joining the pieces with the separator gives back the header. */
  lemma {:induction false} JoinSplit(s: string, sep: char)
    ensures Join(Split(s, sep), sep) == s
    decreases |s|
  {
    var i := IndexOf(s, sep);
    if i < |s| {
      var rest := Split(s[i + 1..], sep);
      JoinSplit(s[i + 1..], sep);
      assert Split(s, sep) == [s[..i]] + rest;
      assert ([s[..i]] + rest)[1..] == rest;
      assert Join(Split(s, sep), sep) == s[..i] + [sep] + Join(rest, sep);
      assert s == s[..i] + [s[i]] + s[i + 1..];
    }
  }

  /** There is one piece more than there are separators in the header. */
  lemma {:induction false} SplitCount(s: string, sep: char)
    ensures |Split(s, sep)| == multiset(s)[sep] + 1
    decreases |s|
  {
    var i := IndexOf(s, sep);
    if i == |s| {
      assert sep !in s by {
        assert forall j :: 0 <= j < |s| ==> s[j] != sep;
      }
    } else {
      SplitCount(s[i + 1..], sep);
      assert s == s[..i] + [s[i]] + s[i + 1..];
      assert multiset(s) == multiset(s[..i]) + multiset([s[i]]) + multiset(s[i + 1..]);
      assert sep !in s[..i] by {
        assert forall j :: 0 <= j < i ==> s[..i][j] != sep;
      }
    }
  }

  /** The first separator of `p + [sep] + rest` is the one after `p`. */
  lemma IndexOfAfterPiece(p: string, sep: char, rest: string)
    requires sep !in p
    ensures IndexOf(p + [sep] + rest, sep) == |p|
  {
    var s := p + [sep] + rest;
    assert forall j :: 0 <= j < |p| ==> s[j] == p[j];
    assert s[|p|] == sep;
  }

  /** The other round trip, and so the uniqueness of the split: any
      non-empty list of separator-free pieces (empty pieces included) is
      what splitting their join gives back. */
  lemma {:induction false} SplitJoin(pieces: seq<string>, sep: char)
    requires |pieces| >= 1
    requires Separated(pieces, sep)
    ensures Split(Join(pieces, sep), sep) == pieces
    decreases |pieces|
  {
    if |pieces| == 1 {
      var p := pieces[0];
      assert sep !in p;
    } else {
      var p, rest := pieces[0], pieces[1..];
      assert sep !in p;
      assert Separated(rest, sep) by {
        forall k | 0 <= k < |rest| ensures sep !in rest[k] {
          assert rest[k] == pieces[k + 1];
        }
      }
      SplitJoin(rest, sep);
      var s := Join(pieces, sep);
      assert s == p + [sep] + Join(rest, sep);
      IndexOfAfterPiece(p, sep, Join(rest, sep));
      assert s[..|p|] == p;
      assert s[|p| + 1..] == Join(rest, sep);
      assert pieces == [p] + rest;
    }
  }

  /** Empty pieces are not filtered: two adjacent separators leave an empty
      piece between the words on either side. */
  lemma SplitKeepsEmptyPieces(a: string, b: string, sep: char)
    requires sep !in a && sep !in b
    ensures Split(a + [sep, sep] + b, sep) == [a, "", b]
  {
    var pieces := [a, "", b];
    assert Separated(pieces, sep);
    SplitJoin(pieces, sep);
    assert pieces[1..] == ["", b] && ["", b][1..] == [b];
    assert Join(["", b], sep) == "" + [sep] + b;
    assert Join(pieces, sep) == a + [sep] + Join(["", b], sep);
    assert a + [sep] + ("" + [sep] + b) == a + [sep, sep] + b;
  }

  /** An empty header still yields one (empty) piece. */
  lemma SplitEmpty(sep: char)
    ensures Split("", sep) == [""]
  {
  }
}
