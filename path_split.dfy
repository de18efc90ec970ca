/** The behaviour of `java.lang.String.split("/")` (default limit 0) on a URI
    path, which the dispatcher uses to find the repository name.

    Java's rules for a one-character, non-regex separator:
    - an input without any separator is returned whole, as a one-element
      array (so the empty string gives `[""]`);
    - otherwise the input is cut at every separator, leading empty pieces
      are kept and trailing empty pieces are removed (so `"/"` gives `[]`,
      `"/a/"` gives `["", "a"]`). */
module PathSplit {

  const Sep: char := '/'

  /** Segments glued back together with one separator between neighbours. */
  function Join(segs: seq<string>): (r: string)
  {
    if |segs| == 0 then ""
    else if |segs| == 1 then segs[0]
    else segs[0] + [Sep] + Join(segs[1..])
  }

  /** Every character of `s` is a separator (true of the empty string). */
  predicate OnlySeparators(s: string)
  {
    forall i :: 0 <= i < |s| ==> s[i] == Sep
  }

  /** A string of `n` separators. */
  function Separators(n: nat): (r: string)
    ensures |r| == n && OnlySeparators(r)
  {
    if n == 0 then "" else Separators(n - 1) + [Sep]
  }

  /** `s` with all of its trailing separators removed: the longest prefix of
      `s` that is empty or ends in something other than a separator. */
  function TrimTrailing(s: string): (r: string)
    ensures r <= s
    ensures r == "" || r[|r| - 1] != Sep
    ensures OnlySeparators(s[|r|..])
  {
    if |s| > 0 && s[|s| - 1] == Sep then TrimTrailing(s[..|s| - 1]) else s
  }

  /** `s` cut at every separator, every piece kept (empty ones included).
      The pieces hold no separator and join back to `s`; the first piece
      is the part of `s` before its first separator. */
  function RawSplit(s: string): (r: seq<string>)
    ensures |r| >= 1
    ensures forall i :: 0 <= i < |r| ==> Sep !in r[i]
    ensures Join(r) == s
    ensures r[0] <= s && (|r[0]| < |s| ==> s[|r[0]|] == Sep)
  {
    if s == "" then [""]
    else
      var rest := RawSplit(s[1..]);
      if s[0] == Sep then
        assert s == [Sep] + s[1..];
        [""] + rest
      else
        var r := [[s[0]] + rest[0]] + rest[1..];
        assert r[1..] == rest[1..];
        assert s == [s[0]] + s[1..];
        r
  }

  /** `segs` without its trailing empty segments: a prefix of `segs` that
      is empty or ends in a non-empty segment, and only empty segments
      were removed. */
  function DropTrailingEmpty(segs: seq<string>): (r: seq<string>)
    ensures r <= segs
    ensures r == [] || r[|r| - 1] != ""
    ensures forall i :: |r| <= i < |segs| ==> segs[i] == ""
  {
    if |segs| > 0 && segs[|segs| - 1] == "" then DropTrailingEmpty(segs[..|segs| - 1])
    else segs
  }

  /** `path.split("/")` as Java computes it. No segment holds a separator;
      the last segment is non-empty unless the input is the empty string,
      which gives `[""]`; the first segment is the part of the input before
      its first separator (the whole input when there is none). The split
      is pinned down further by `SplitJoin`, `SplitEmptyIff` and
      `RawSplitUnique`. */
  function Split(s: string): (r: seq<string>)
    ensures forall i :: 0 <= i < |r| ==> Sep !in r[i]
    ensures s != "" && |r| > 0 ==> r[|r| - 1] != ""
    ensures s == "" ==> r == [""]
    ensures |r| > 0 ==> r[0] <= s && (|r[0]| < |s| ==> s[|r[0]|] == Sep)
  {
    if Sep !in s then [s] else DropTrailingEmpty(RawSplit(s))
  }

  // ---------------------------------------------------------------------
  // Facts about Join

  lemma {:induction false} JoinAppend(a: seq<string>, b: seq<string>)
    requires |a| >= 1 && |b| >= 1
    ensures Join(a + b) == Join(a) + [Sep] + Join(b)
  {
    if |a| == 1 {
      assert (a + b)[1..] == b;
    } else {
      assert (a + b)[1..] == a[1..] + b;
      JoinAppend(a[1..], b);
    }
  }

  /** Joining `k + 1` empty segments gives `k` separators. */
  lemma {:induction false} JoinEmpties(e: seq<string>)
    requires |e| >= 1
    requires forall i :: 0 <= i < |e| ==> e[i] == ""
    ensures Join(e) == Separators(|e| - 1)
  {
    if |e| > 1 {
      var init := e[..|e| - 1];
      JoinEmpties(init);
      JoinAppend(init, [""]);
      assert init + [""] == e;
    }
  }

  /** Appending empty segments appends as many separators. */
  lemma {:induction false} JoinTrailingEmpties(r: seq<string>, e: seq<string>)
    requires |r| >= 1
    requires forall i :: 0 <= i < |e| ==> e[i] == ""
    ensures Join(r + e) == Join(r) + Separators(|e|)
  {
    if |e| > 0 {
      JoinAppend(r, e);
      JoinEmpties(e);
      assert Separators(|e|) == [Sep] + Separators(|e| - 1) by {
        SeparatorsCons(|e| - 1);
      }
    } else {
      assert r + e == r;
    }
  }

  lemma {:induction false} SeparatorsCons(n: nat)
    ensures Separators(n + 1) == [Sep] + Separators(n)
  {
    if n > 0 {
      SeparatorsCons(n - 1);
    }
  }

  /** A join whose last segment is non-empty ends in that segment's last
      character. */
  lemma {:induction false} JoinEndsWithLastSegment(r: seq<string>)
    ensures |r| >= 1 && r[|r| - 1] != "" ==>
      |Join(r)| > 0 && Join(r)[|Join(r)| - 1] == r[|r| - 1][|r[|r| - 1]| - 1]
  {
    if |r| > 1 {
      JoinEndsWithLastSegment(r[1..]);
    }
  }

  /** Trimming `t` followed by separators gives `t` back, when `t` does not
      itself end in a separator. */
  lemma {:induction false} TrimAfterSeparators(t: string, n: nat)
    requires t == "" || t[|t| - 1] != Sep
    ensures TrimTrailing(t + Separators(n)) == t
  {
    if n == 0 {
      assert t + Separators(n) == t;
    } else {
      var s := t + Separators(n);
      assert s[..|s| - 1] == t + Separators(n - 1);
      TrimAfterSeparators(t, n - 1);
    }
  }

  // ---------------------------------------------------------------------
  // Facts about Split

  /** An input without a separator comes back whole. */
  lemma SplitWithoutSeparator(s: string)
    requires Sep !in s
    ensures Split(s) == [s]
  {
  }

  /** Joining the segments gives back the input without its trailing
      separators. */
  lemma {:induction false} SplitJoin(s: string)
    ensures Join(Split(s)) == TrimTrailing(s)
  {
    if Sep in s {
      var raw := RawSplit(s);
      var r := DropTrailingEmpty(raw);
      var e := raw[|r|..];
      assert raw == r + e;
      if |r| > 0 {
        JoinTrailingEmpties(r, e);
        JoinEndsWithLastSegment(r);
        var last := r[|r| - 1];
        assert last[|last| - 1] in last;
        TrimAfterSeparators(Join(r), |e|);
      } else {
        assert raw == e;
        JoinEmpties(e);
        TrimAfterSeparators("", |e| - 1);
        assert "" + Separators(|e| - 1) == Separators(|e| - 1);
      }
    }
  }

  /** Split gives no segment at all exactly when the input is non-empty and
      made only of separators. */
  lemma {:induction false} SplitEmptyIff(s: string)
    ensures |Split(s)| == 0 <==> s != "" && OnlySeparators(s)
  {
    SplitJoin(s);
    var r := Split(s);
    JoinEndsWithLastSegment(r);
    if |r| == 0 {
      assert Sep in s;
      assert s[|TrimTrailing(s)|..] == s;
    }
    if OnlySeparators(s) {
      assert s == "" + Separators(|s|);
      TrimAfterSeparators("", |s|);
    }
  }

  /** Split characterised without reference to its body: any list of
      separator-free segments that joins to `s` is the raw split of `s`. */
  lemma {:induction false} RawSplitUnique(segs: seq<string>, s: string)
    requires |segs| >= 1
    requires forall i :: 0 <= i < |segs| ==> Sep !in segs[i]
    requires Join(segs) == s
    ensures segs == RawSplit(s)
  {
    if |segs| == 1 {
      RawSplitPiece(segs[0]);
    } else {
      RawSplitUnique(segs[1..], Join(segs[1..]));
      RawSplitPieceThen(segs[0], Join(segs[1..]));
      assert segs == [segs[0]] + segs[1..];
    }
  }

  lemma {:induction false} NoSeparatorInTail(a: string)
    requires a != "" && Sep !in a
    ensures Sep !in a[1..] && a[0] != Sep && a == [a[0]] + a[1..]
  {
    assert a[0] in a;
    forall c | c in a[1..] ensures c != Sep {
      assert c in a;
    }
  }

  /** A separator-free input is a single segment. */
  lemma {:induction false} RawSplitPiece(a: string)
    requires Sep !in a
    ensures RawSplit(a) == [a]
  {
    if a != "" {
      NoSeparatorInTail(a);
      RawSplitPiece(a[1..]);
    }
  }

  /** A separator-free piece followed by a separator is the first segment,
      and the rest is split on its own. */
  lemma {:induction false} RawSplitPieceThen(a: string, t: string)
    requires Sep !in a
    ensures RawSplit(a + [Sep] + t) == [a] + RawSplit(t)
  {
    var s := a + [Sep] + t;
    if a == "" {
      assert s == [Sep] + t;
      assert s[1..] == t;
    } else {
      NoSeparatorInTail(a);
      assert s[1..] == a[1..] + [Sep] + t;
      assert s[0] == a[0] != Sep;
      var rest := RawSplit(s[1..]);
      RawSplitPieceThen(a[1..], t);
      assert rest == [a[1..]] + RawSplit(t);
      assert rest[0] == a[1..] && rest[1..] == RawSplit(t);
      calc {
        RawSplit(s);
        [[s[0]] + rest[0]] + rest[1..];
        [a] + RawSplit(t);
      }
    }
  }

  // ---------------------------------------------------------------------
  // Examples

  /** Leading empty segments are kept: an absolute path starts with "". */
  lemma SplitAbsolutePathExample()
    ensures Split("/repo/x") == ["", "repo", "x"]
  {
    RawSplitUnique(["", "repo", "x"], "/repo/x");
  }

  /** Trailing empty segments are dropped. */
  lemma SplitTrailingExample()
    ensures Split("a//b//") == ["a", "", "b"]
  {
    RawSplitUnique(["a", "", "b", "", ""], "a//b//");
  }

  /** Paths made only of separators give no segment. */
  lemma SplitSeparatorsExample()
    ensures Split("/") == [] && Split("///") == []
  {
    SplitEmptyIff("/");
    SplitEmptyIff("///");
  }
}
