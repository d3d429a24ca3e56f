/** The few `java.lang.String` operations the core relies on, over `seq<char>`. */
module Text {

  predicate StartsWith(s: string, prefix: string) {
    |prefix| <= |s| && s[..|prefix|] == prefix
  }

  predicate EndsWith(s: string, suffix: string) {
    |suffix| <= |s| && s[|s| - |suffix|..] == suffix
  }

  /** Does `sep` occur anywhere in `s`? */
  predicate Contains(s: string, sep: string)
    decreases |s|
  {
    StartsWith(s, sep) || (|s| > 0 && Contains(s[1..], sep))
  }

  /** The parts separated by `sep`, as a join helper (`ListUtils.join`) writes them. */
  function Join(sep: string, parts: seq<string>): string
    decreases |parts|
  {
    if |parts| == 0 then ""
    else if |parts| == 1 then parts[0]
    else parts[0] + sep + Join(sep, parts[1..])
  }

  /** Cuts `s` at every leftmost, non-overlapping occurrence of `sep`, keeping every
      piece, empty ones included. */
  function SplitAll(s: string, sep: string): (r: seq<string>)
    requires |sep| > 0
    ensures |r| >= 1
    decreases |s|
  {
    if StartsWith(s, sep) then [""] + SplitAll(s[|sep|..], sep)
    else if s == [] then [""]
    else
      var t := SplitAll(s[1..], sep);
      [[s[0]] + t[0]] + t[1..]
  }

  /** Removes the trailing run of empty strings. */
  function DropTrailingEmpty(parts: seq<string>): (r: seq<string>)
    ensures |r| <= |parts| && r == parts[..|r|]
    ensures |r| > 0 ==> r[|r| - 1] != ""
    ensures forall j :: |r| <= j < |parts| ==> parts[j] == ""
    decreases |parts|
  {
    if |parts| > 0 && parts[|parts| - 1] == "" then DropTrailingEmpty(parts[..|parts| - 1])
    else parts
  }

  /** Java's `s.split(sep)` for a separator without regex metacharacters (as the line
      separator is): a string in which `sep` never occurs is returned whole (so "" gives
      [""]); otherwise every piece is kept except the trailing empty ones. */
  function Split(s: string, sep: string): (r: seq<string>)
    requires |sep| > 0
  {
    if !Contains(s, sep) then [s] else DropTrailingEmpty(SplitAll(s, sep))
  }

  lemma {:induction false} JoinCons(sep: string, x: string, t: seq<string>)
    requires |t| >= 1
    ensures Join(sep, [x] + t) == x + sep + Join(sep, t)
  {
    assert ([x] + t)[1..] == t;
  }

  lemma {:induction false} JoinExtendHead(sep: string, c: char, t: seq<string>)
    requires |t| >= 1
    ensures Join(sep, [[c] + t[0]] + t[1..]) == [c] + Join(sep, t)
  {
    if |t| > 1 {
      JoinCons(sep, [c] + t[0], t[1..]);
      JoinCons(sep, t[0], t[1..]);
      assert t == [t[0]] + t[1..];
    }
  }

  /** Joining the pieces again with the separator gives back the input. */
  lemma {:induction false} JoinSplitAll(s: string, sep: string)
    requires |sep| > 0
    ensures Join(sep, SplitAll(s, sep)) == s
    decreases |s|, 1
  {
    if StartsWith(s, sep) {
      JoinSplitAllAtSep(s, sep);
    } else if s != [] {
      JoinSplitAllAtChar(s, sep);
    }
  }

  lemma {:induction false} JoinSplitAllAtSep(s: string, sep: string)
    requires |sep| > 0 && StartsWith(s, sep)
    ensures Join(sep, SplitAll(s, sep)) == s
    decreases |s|, 0
  {
    var rest := s[|sep|..];
    JoinSplitAll(rest, sep);
    JoinCons(sep, "", SplitAll(rest, sep));
    assert s == sep + rest;
  }

  lemma {:induction false} JoinSplitAllAtChar(s: string, sep: string)
    requires |sep| > 0 && !StartsWith(s, sep) && s != []
    ensures Join(sep, SplitAll(s, sep)) == s
    decreases |s|, 0
  {
    var t := SplitAll(s[1..], sep);
    JoinSplitAll(s[1..], sep);
    JoinExtendHead(sep, s[0], t);
    assert s == [s[0]] + s[1..];
  }

  /** The first piece is the text before the first cut. */
  lemma {:induction false} SplitAllHeadIsPrefix(s: string, sep: string)
    requires |sep| > 0
    ensures StartsWith(s, SplitAll(s, sep)[0])
    decreases |s|
  {
    if !StartsWith(s, sep) && s != [] {
      var t := SplitAll(s[1..], sep);
      SplitAllHeadIsPrefix(s[1..], sep);
      assert s == [s[0]] + s[1..];
    }
  }

  /** A string that begins a text without the separator at its start does not begin
      with the separator either. */
  lemma {:induction false} PrefixNotStartingWith(s: string, p: string, sep: string)
    requires StartsWith(s, p) && !StartsWith(s, sep)
    ensures !StartsWith(p, sep)
  {
  }

  /** The cut is made at every occurrence: no piece holds the separator. */
  lemma {:induction false} SplitAllPiecesHaveNoSeparator(s: string, sep: string)
    requires |sep| > 0
    ensures forall j :: 0 <= j < |SplitAll(s, sep)| ==> !Contains(SplitAll(s, sep)[j], sep)
    decreases |s|
  {
    var r := SplitAll(s, sep);
    if StartsWith(s, sep) {
      var rest := SplitAll(s[|sep|..], sep);
      SplitAllPiecesHaveNoSeparator(s[|sep|..], sep);
      assert r == [""] + rest;
      forall j | 0 <= j < |r| ensures !Contains(r[j], sep) {
        if j > 0 {
          assert r[j] == rest[j - 1];
        }
      }
    } else if s != [] {
      var t := SplitAll(s[1..], sep);
      SplitAllPiecesHaveNoSeparator(s[1..], sep);
      var head := [s[0]] + t[0];
      assert r == [head] + t[1..];
      assert !Contains(head, sep) by {
        SplitAllHeadIsPrefix(s[1..], sep);
        assert StartsWith(s, head) by {
          assert s == [s[0]] + s[1..];
        }
        PrefixNotStartingWith(s, head, sep);
        assert head[1..] == t[0];
        assert !Contains(t[0], sep);
      }
      forall j | 0 <= j < |r| ensures !Contains(r[j], sep) {
        if j > 0 {
          assert r[j] == t[j];
        }
      }
    }
  }

  /** Split keeps a prefix of the cut pieces and drops only empty ones, unless the
      separator never occurs. */
  lemma {:induction false} SplitIsPrefixOfPieces(s: string, sep: string)
    requires |sep| > 0
    ensures !Contains(s, sep) ==> Split(s, sep) == [s]
    ensures Contains(s, sep) ==>
      var all := SplitAll(s, sep);
      var r := Split(s, sep);
      Join(sep, all) == s && r == all[..|r|] && forall j :: |r| <= j < |all| ==> all[j] == ""
  {
    JoinSplitAll(s, sep);
  }

  /** No line `split` returns holds the separator. */
  lemma {:induction false} SplitPiecesHaveNoSeparator(s: string, sep: string)
    requires |sep| > 0
    ensures forall j :: 0 <= j < |Split(s, sep)| ==> !Contains(Split(s, sep)[j], sep)
  {
    if Contains(s, sep) {
      var all := SplitAll(s, sep);
      var r := DropTrailingEmpty(all);
      assert Split(s, sep) == r;
      SplitAllPiecesHaveNoSeparator(s, sep);
      forall j | 0 <= j < |r| ensures !Contains(r[j], sep) {
        assert r[j] == all[j];
      }
    }
  }
}
