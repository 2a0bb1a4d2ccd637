/** Models of the two functions of Go's `strings` package that main.go relies
    on: `strings.Split` with a one-character separator (the credential split)
    and `strings.Join` (the target URI and the stdin body). */
module GoStrings {

  /** Number of occurrences of `c` in `s`. */
  function Count(s: string, c: char): nat
  {
    if s == [] then 0
    else Count(s[..|s| - 1], c) + (if s[|s| - 1] == c then 1 else 0)
  }

  /** strings.Join: the elements of `parts` with `sep` between each two
      neighbours; the empty list joins to the empty string. */
  function Join(parts: seq<string>, sep: string): string
  {
    if |parts| == 0 then ""
    else if |parts| == 1 then parts[0]
    else Join(parts[..|parts| - 1], sep) + sep + parts[|parts| - 1]
  }

  /** Every element of `parts` preceded by `sep`, concatenated in order. */
  function Prefixed(parts: seq<string>, sep: string): string
  {
    if parts == [] then ""
    else Prefixed(parts[..|parts| - 1], sep) + sep + parts[|parts| - 1]
  }

  /** strings.Split(s, [c]): the maximal pieces of `s` between occurrences
      of `c`. Like the Go function it never returns an empty list: the
      empty string splits into the single piece "". */
  function Split(s: string, c: char): (parts: seq<string>)
    ensures |parts| >= 1
  {
    if s == [] then [""]
    else
      var p := Split(s[..|s| - 1], c);
      if s[|s| - 1] == c then p + [""]
      else p[..|p| - 1] + [p[|p| - 1] + [s[|s| - 1]]]
  }

  /** Splitting yields one more piece than there are separators. */
  lemma {:induction false} SplitCount(s: string, c: char)
    ensures |Split(s, c)| == Count(s, c) + 1
  {
    if s != [] {
      SplitCount(s[..|s| - 1], c);
    }
  }

  /** No piece contains the separator. */
  lemma {:induction false} SplitPiecesFree(s: string, c: char)
    ensures forall i :: 0 <= i < |Split(s, c)| ==> c !in Split(s, c)[i]
  {
    if s != [] {
      SplitPiecesFree(s[..|s| - 1], c);
      var p := Split(s[..|s| - 1], c);
      if s[|s| - 1] != c {
        assert c !in p[|p| - 1];
      }
    }
  }

  /** Joining with a longer last element extends the result. */
  lemma JoinExtendLast(p: seq<string>, sep: string, x: string)
    requires |p| >= 1
    ensures Join(p[..|p| - 1] + [p[|p| - 1] + x], sep) == Join(p, sep) + x
  {
  }

  /** Joining one more part adds the separator and that part (or just the
      part, when there was none before). */
  lemma JoinAppend(parts: seq<string>, sep: string, x: string)
    ensures Join(parts + [x], sep) == if parts == [] then x else Join(parts, sep) + sep + x
  {
    assert (parts + [x])[..|parts|] == parts;
  }

  /** Joining the pieces back with the separator restores the string. */
  lemma {:induction false} SplitJoin(s: string, c: char)
    ensures Join(Split(s, c), [c]) == s
  {
    if s != [] {
      var init, last := s[..|s| - 1], s[|s| - 1];
      SplitJoin(init, c);
      var p := Split(init, c);
      assert init + [last] == s;
      if last == c {
        assert Split(s, c) == p + [""];
        JoinAppend(p, [c], "");
      } else {
        assert Split(s, c) == p[..|p| - 1] + [p[|p| - 1] + [last]];
        JoinExtendLast(p, [c], [last]);
      }
    }
  }

  /** A string without the separator is a single piece. */
  lemma {:induction false} SplitFree(s: string, c: char)
    requires c !in s
    ensures Split(s, c) == [s]
  {
    if s != [] {
      SplitFree(s[..|s| - 1], c);
      assert s[..|s| - 1] + [s[|s| - 1]] == s;
    }
  }

  /** `u`, the separator, then `v`, neither holding it, splits into [u, v]. */
  lemma {:induction false} SplitPair(u: string, v: string, c: char)
    requires c !in u && c !in v
    ensures Split(u + [c] + v, c) == [u, v]
  {
    var s := u + [c] + v;
    if v == [] {
      SplitFree(u, c);
      assert s[..|s| - 1] == u && s[|s| - 1] == c;
      assert Split(s, c) == [u] + [""];
    } else {
      var w, last := v[..|v| - 1], v[|v| - 1];
      SplitPair(u, w, c);
      assert s[..|s| - 1] == u + [c] + w && s[|s| - 1] == last;
      assert Split(s, c) == [u] + [w + [last]];
      assert w + [last] == v;
    }
  }

  /** Joining a head with further parts: the head, then each further part
      preceded by the separator; with no further parts, the head alone. */
  lemma {:induction false} JoinCons(head: string, rest: seq<string>, sep: string)
    ensures Join([head] + rest, sep) == head + Prefixed(rest, sep)
  {
    if rest != [] {
      var q := [head] + rest;
      var init := rest[..|rest| - 1];
      JoinCons(head, init, sep);
      assert q[..|q| - 1] == [head] + init;
    }
  }
}
