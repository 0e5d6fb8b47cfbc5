/** The Python `str` operations the recipe relies on, on `seq<char>`:
    `startswith`, `in`, `replace`, `split` with an explicit separator, and
    `join` as the inverse of `split`. */
module PyStrings {

  /** `s.startswith(prefix)` */
  predicate StartsWith(s: string, prefix: string) {
    |prefix| <= |s| && s[..|prefix|] == prefix
  }

  /** A text starts with any of its own prefixes. */
  lemma StartsWithAppend(a: string, b: string)
    ensures StartsWith(a + b, a)
  {
    assert (a + b)[..|a|] == a;
  }

  /** One differing character rules a prefix out. */
  lemma NotStartsWithAt(s: string, prefix: string, i: nat)
    requires i < |prefix| && i < |s| && s[i] != prefix[i]
    ensures !StartsWith(s, prefix)
  {
    if |prefix| <= |s| {
      assert s[..|prefix|][i] == s[i];
    }
  }

  /** `sub` occurs in `s` at position `i`. */
  ghost predicate OccursAt(s: string, sub: string, i: int) {
    0 <= i && i + |sub| <= |s| && s[i..i + |sub|] == sub
  }

  /** `sub in s` */
  predicate Contains(s: string, sub: string)
    decreases |s|
  {
    StartsWith(s, sub) || (|s| > 0 && Contains(s[1..], sub))
  }

  /** `Contains` holds exactly when some window of `s` equals `sub`. */
  lemma {:induction false} ContainsIffOccurs(s: string, sub: string)
    ensures Contains(s, sub) <==> exists i :: OccursAt(s, sub, i)
    decreases |s|
  {
    if |s| > 0 {
      ContainsIffOccurs(s[1..], sub);
      if exists i :: OccursAt(s, sub, i) {
        var i :| OccursAt(s, sub, i);
        if i > 0 {
          assert s[1..][i - 1..i - 1 + |sub|] == s[i..i + |sub|];
          assert OccursAt(s[1..], sub, i - 1);
        } else {
          assert StartsWith(s, sub);
        }
      }
      if Contains(s[1..], sub) && !StartsWith(s, sub) {
        var t := s[1..];
        var i :| OccursAt(t, sub, i);
        assert i + 1 + |sub| <= |s|;
        var a, b := t[i..i + |sub|], s[i + 1..i + 1 + |sub|];
        assert a == b by {
          forall k | 0 <= k < |sub|
            ensures a[k] == b[k]
          {
          }
        }
        assert OccursAt(s, sub, i + 1);
      }
      if StartsWith(s, sub) {
        assert OccursAt(s, sub, 0);
      }
    } else {
      if exists i :: OccursAt(s, sub, i) {
        var i :| OccursAt(s, sub, i);
        assert |sub| == 0 && i == 0;
        assert StartsWith(s, sub);
      }
      if StartsWith(s, sub) {
        assert OccursAt(s, sub, 0);
      }
    }
  }

  /** `s.replace(pat, rep)`: every non-overlapping occurrence of `pat`,
      scanned from the left, is replaced; an empty `pat` inserts `rep` before
      every character and at the end. */
  function Replace(s: string, pat: string, rep: string): (r: string)
    ensures !Contains(s, pat) ==> r == s
    decreases |s|
  {
    if |pat| == 0 then
      if |s| == 0 then rep else rep + [s[0]] + Replace(s[1..], pat, rep)
    else if StartsWith(s, pat) then rep + Replace(s[|pat|..], pat, rep)
    else if |s| == 0 then ""
    else [s[0]] + Replace(s[1..], pat, rep)
  }

  /** A text that starts with the pattern has it replaced there and the
      rest replaced after it. */
  lemma ReplaceAtMatch(pat: string, u: string, rep: string)
    requires |pat| > 0
    ensures Replace(pat + u, pat, rep) == rep + Replace(u, pat, rep)
  {
    StartsWithAppend(pat, u);
    assert (pat + u)[|pat|..] == u;
  }

  /** A text without the pattern's first character does not contain it. */
  lemma {:induction false} NotContainsWithoutFirst(s: string, sub: string)
    requires |sub| > 0 && sub[0] !in s
    ensures !Contains(s, sub)
    decreases |s|
  {
    if |s| > 0 {
      assert s[0] != sub[0];
      assert forall c :: c in s[1..] ==> c in s;
      NotContainsWithoutFirst(s[1..], sub);
    }
  }

  /** `s.split(sep)` for a non-empty separator (Python raises `ValueError`
      on an empty one): the pieces between the non-overlapping occurrences
      of `sep`, scanned from the left. */
  function Split(s: string, sep: string): (parts: seq<string>)
    requires |sep| > 0
    ensures |parts| >= 1
    decreases |s|
  {
    if StartsWith(s, sep) then [""] + Split(s[|sep|..], sep)
    else if |s| == 0 then [""]
    else
      var rest := Split(s[1..], sep);
      [[s[0]] + rest[0]] + rest[1..]
  }

  /** `sep.join(parts)` */
  function Join(parts: seq<string>, sep: string): string
    decreases |parts|
  {
    if |parts| == 0 then ""
    else if |parts| == 1 then parts[0]
    else parts[0] + sep + Join(parts[1..], sep)
  }

  /** Prepending a character to the first part prepends it to the join. */
  lemma JoinConsFirst(c: char, parts: seq<string>, sep: string)
    requires |parts| >= 1
    ensures Join([[c] + parts[0]] + parts[1..], sep) == [c] + Join(parts, sep)
  {
    var q := [[c] + parts[0]] + parts[1..];
    if |parts| > 1 {
      assert q[1..] == parts[1..];
    }
  }

  /** Joining the pieces of a split with the same separator gives back the
      string: `sep.join(s.split(sep)) == s`. */
  lemma {:induction false} JoinSplit(s: string, sep: string)
    requires |sep| > 0
    ensures Join(Split(s, sep), sep) == s
    decreases |s|
  {
    if StartsWith(s, sep) {
      var rest := Split(s[|sep|..], sep);
      JoinSplit(s[|sep|..], sep);
      assert ([""] + rest)[1..] == rest;
      assert s == sep + s[|sep|..];
    } else if |s| > 0 {
      var rest := Split(s[1..], sep);
      JoinSplit(s[1..], sep);
      JoinConsFirst(s[0], rest, sep);
      assert s == [s[0]] + s[1..];
    }
  }

  /** `s.replace(pat, rep) == rep.join(s.split(pat))` for a non-empty `pat`:
      replacing is splitting on the pattern and joining with the replacement. */
  lemma {:induction false} ReplaceIsJoinOfSplit(s: string, pat: string, rep: string)
    requires |pat| > 0
    ensures Replace(s, pat, rep) == Join(Split(s, pat), rep)
    decreases |s|
  {
    if StartsWith(s, pat) {
      var rest := Split(s[|pat|..], pat);
      ReplaceIsJoinOfSplit(s[|pat|..], pat, rep);
      assert ([""] + rest)[1..] == rest;
    } else if |s| > 0 {
      var rest := Split(s[1..], pat);
      ReplaceIsJoinOfSplit(s[1..], pat, rep);
      JoinConsFirst(s[0], rest, rep);
    }
  }

  /** `sep` occurs in `s` at no position before `n`. */
  predicate NoOccurrenceBefore(s: string, sep: string, n: nat) {
    forall i :: 0 <= i < n && i <= |s| ==> !StartsWith(s[i..], sep)
  }

  /** What `s.split(sep)` is, for any non-empty separator: the first piece
      runs from the start up to the leftmost occurrence of `sep` (or is the
      whole string when there is none), and the remaining pieces are the
      split of what follows that occurrence. */
  lemma {:induction false} SplitFirstPiece(s: string, sep: string)
    requires |sep| > 0
    ensures var p := Split(s, sep)[0];
      StartsWith(s, p) && NoOccurrenceBefore(s, sep, |p|)
    ensures var p := Split(s, sep)[0];
      |Split(s, sep)| == 1 ==> p == s
    ensures var p := Split(s, sep)[0];
      |Split(s, sep)| > 1 ==>
        StartsWith(s[|p|..], sep) && Split(s, sep)[1..] == Split(s[|p| + |sep|..], sep)
    decreases |s|
  {
    var parts := Split(s, sep);
    if StartsWith(s, sep) {
      assert parts == [""] + Split(s[|sep|..], sep);
      assert s[..0] == "";
      assert s[0..] == s;
    } else if |s| > 0 {
      var t := s[1..];
      var rest := Split(t, sep);
      var q := rest[0];
      SplitFirstPiece(t, sep);
      var p := [s[0]] + q;
      assert parts == [p] + rest[1..];
      assert s[..|p|] == [s[0]] + t[..|q|];
      forall i | 0 < i < |p| && i <= |s|
        ensures !StartsWith(s[i..], sep)
      {
        assert s[i..] == t[i - 1..];
      }
      assert s[0..] == s;
      if |rest| == 1 {
        assert p == [s[0]] + t == s;
      } else {
        assert s[|p|..] == t[|q|..];
        assert s[|p| + |sep|..] == t[|q| + |sep|..];
      }
    }
  }

  /** A prefix of `s` before the first occurrence of `sep` in `s` does not
      contain `sep`. */
  lemma {:induction false} PrefixBeforeOccurrence(s: string, p: string, sep: string)
    requires |sep| > 0 && StartsWith(s, p) && NoOccurrenceBefore(s, sep, |p|)
    ensures !Contains(p, sep)
    decreases |p|
  {
    if |p| > 0 {
      assert s[0..] == s;
      var t := s[1..];
      assert t[..|p| - 1] == p[1..];
      forall i | 0 <= i < |p| - 1 && i <= |t|
        ensures !StartsWith(t[i..], sep)
      {
        assert t[i..] == s[i + 1..];
      }
      PrefixBeforeOccurrence(t, p[1..], sep);
    }
  }

  /** No piece of `s.split(sep)` contains `sep`, for any non-empty
      separator. */
  lemma {:induction false} SplitPiecesAvoidSep(s: string, sep: string)
    requires |sep| > 0
    ensures forall k :: 0 <= k < |Split(s, sep)| ==> !Contains(Split(s, sep)[k], sep)
    decreases |s|
  {
    var parts := Split(s, sep);
    SplitFirstPiece(s, sep);
    PrefixBeforeOccurrence(s, parts[0], sep);
    if |parts| > 1 {
      var t := s[|parts[0]| + |sep|..];
      SplitPiecesAvoidSep(t, sep);
      assert forall k :: 1 <= k < |parts| ==> parts[k] == Split(t, sep)[k - 1];
    }
  }

  /** Replacing by `rep` rather than by nothing lengthens the result by at
      least `rep` wherever the pattern occurs at all. */
  lemma {:induction false} ReplaceGrows(s: string, pat: string, rep: string)
    requires |pat| > 0
    ensures |Replace(s, pat, rep)| >= |Replace(s, pat, "")|
    ensures Contains(s, pat) ==> |Replace(s, pat, rep)| >= |Replace(s, pat, "")| + |rep|
    decreases |s|
  {
    if StartsWith(s, pat) {
      ReplaceGrows(s[|pat|..], pat, rep);
    } else if |s| > 0 {
      ReplaceGrows(s[1..], pat, rep);
    }
  }

  /** Removing a character (`s.replace(c, "")`) keeps every other character
      with its multiplicity and drops every occurrence of `c`. */
  lemma {:induction false} RemoveCharContents(s: string, c: char)
    ensures multiset(Replace(s, [c], "")) == multiset(s)[c := 0]
    ensures c !in Replace(s, [c], "")
    decreases |s|
  {
    if |s| > 0 {
      RemoveCharContents(s[1..], c);
      assert s == [s[0]] + s[1..];
      assert multiset(s) == multiset{s[0]} + multiset(s[1..]);
      if s[0] == c {
        assert StartsWith(s, [c]);
      } else {
        assert !StartsWith(s, [c]);
        assert Replace(s, [c], "") == [s[0]] + Replace(s[1..], [c], "");
      }
    }
  }

  /** No piece of a split on a one-character separator contains the
      separator, nor any character the whole string lacks. */
  lemma {:induction false} SplitPiecesAvoid(s: string, c: char, d: char)
    requires d == c || d !in s
    ensures forall k :: 0 <= k < |Split(s, [c])| ==> d !in Split(s, [c])[k]
    decreases |s|
  {
    if |s| > 0 {
      assert forall x :: x in s[1..] ==> x in s;
      SplitPiecesAvoid(s[1..], c, d);
      if !StartsWith(s, [c]) {
        assert s[0] != c && s[0] in s;
      }
    }
  }

  /** A character in neither the pieces nor the separator is not in the
      join. */
  lemma {:induction false} JoinAvoids(parts: seq<string>, sep: string, d: char)
    requires d !in sep
    requires forall k :: 0 <= k < |parts| ==> d !in parts[k]
    ensures d !in Join(parts, sep)
    decreases |parts|
  {
    if |parts| > 1 {
      JoinAvoids(parts[1..], sep, d);
    }
  }

  /** Splitting a piece-free-of-`c` followed by `c` yields that piece first. */
  lemma {:induction false} SplitAfterPiece(p: string, t: string, c: char)
    requires c !in p
    ensures Split(p + [c] + t, [c]) == [p] + Split(t, [c])
    decreases |p|
  {
    var s := p + [c] + t;
    if |p| == 0 {
      assert s == [c] + t;
      assert StartsWith(s, [c]);
      assert s[1..] == t;
    } else {
      assert s[0] == p[0] && p[0] in p;
      assert !StartsWith(s, [c]);
      assert s[1..] == p[1..] + [c] + t;
      SplitAfterPiece(p[1..], t, c);
      var rest := Split(s[1..], [c]);
      assert rest == [p[1..]] + Split(t, [c]);
      assert [s[0]] + rest[0] == p;
    }
  }

  /** A string without `c` splits into itself alone. */
  lemma {:induction false} SplitWithoutSeparator(p: string, c: char)
    requires c !in p
    ensures Split(p, [c]) == [p]
    decreases |p|
  {
    if |p| > 0 {
      assert p[0] in p;
      assert !StartsWith(p, [c]);
      SplitWithoutSeparator(p[1..], c);
      assert [p[0]] + p[1..] == p;
    }
  }

  /** Splitting the join of pieces free of `c` gives the pieces back:
      `sep.join(ps).split(sep) == ps` for a one-character `sep`. */
  lemma {:induction false} SplitJoin(parts: seq<string>, c: char)
    requires |parts| >= 1
    requires forall k :: 0 <= k < |parts| ==> c !in parts[k]
    ensures Split(Join(parts, [c]), [c]) == parts
    decreases |parts|
  {
    if |parts| == 1 {
      SplitWithoutSeparator(parts[0], c);
    } else {
      SplitJoin(parts[1..], c);
      SplitAfterPiece(parts[0], Join(parts[1..], [c]), c);
      assert [parts[0]] + parts[1..] == parts;
    }
  }
}
