/**
  The few Python string builtins the word-wrap engine relies on, modelled
  exactly on `string` (= seq<char>):
  - `s.split(sep)` for a one-character separator (n separators give n+1
    pieces, and `"".split(sep) == [""]`),
  - `sep.join(pieces)` and `"".join(pieces)`,
  - `s.replace(c, "")`, written as deletion of a set of characters.
*/
module PyStr {

  /** Number of occurrences of `c` in `s`. */
  function Count(s: string, c: char): nat
  {
    if s == [] then 0 else (if s[0] == c then 1 else 0) + Count(s[1..], c)
  }

  /** Python's `s.split(sep)`. */
  function Split(s: string, sep: char): (r: seq<string>)
    ensures |r| == Count(s, sep) + 1
    ensures forall p :: p in r ==> sep !in p
  {
    if s == [] then [[]]
    else
      var rest := Split(s[1..], sep);
      if s[0] == sep then [[]] + rest
      else [[s[0]] + rest[0]] + rest[1..]
  }

  /** Python's `sep.join(pieces)`. */
  function Join(pieces: seq<string>, sep: char): string
  {
    if pieces == [] then []
    else if |pieces| == 1 then pieces[0]
    else pieces[0] + [sep] + Join(pieces[1..], sep)
  }

  /** Python's `"".join(pieces)`. */
  function Concat(pieces: seq<string>): string
  {
    if pieces == [] then [] else pieces[0] + Concat(pieces[1..])
  }

  /** `s` with every character of `cs` deleted; `Drop(s, {c})` is Python's `s.replace(c, "")`. */
  function Drop(s: string, cs: set<char>): (r: string)
    ensures forall i :: 0 <= i < |r| ==> r[i] !in cs
    ensures |r| <= |s|
  {
    if s == [] then []
    else (if s[0] in cs then [] else [s[0]]) + Drop(s[1..], cs)
  }

  // ---------------------------------------------------------------------
  // Split and Join are inverse to each other
  // ---------------------------------------------------------------------

  /** Joining the pieces of a split with the separator gives the string back. */
  lemma {:induction false} JoinSplit(s: string, sep: char)
    ensures Join(Split(s, sep), sep) == s
  {
    if s != [] {
      var rest := Split(s[1..], sep);
      JoinSplit(s[1..], sep);
      if s[0] == sep {
        assert Split(s, sep) == [[]] + rest;
        assert ([[]] + rest)[1..] == rest;
      } else {
        var r := Split(s, sep);
        assert r == [[s[0]] + rest[0]] + rest[1..];
        if |rest| == 1 {
          assert Join(r, sep) == [s[0]] + rest[0];
        } else {
          assert r[1..] == rest[1..];
          assert Join(rest, sep) == rest[0] + [sep] + Join(rest[1..], sep);
          assert Join(r, sep) == [s[0]] + rest[0] + [sep] + Join(rest[1..], sep);
        }
      }
    }
  }

  /** A string free of the separator splits into itself alone. */
  lemma {:induction false} SplitWithoutSep(s: string, sep: char)
    requires sep !in s
    ensures Split(s, sep) == [s]
  {
    if s != [] {
      assert s[0] in s && sep !in s[1..];
      SplitWithoutSep(s[1..], sep);
      assert [s[0]] + s[1..] == s;
    }
  }

  /** A separator in the middle splits into the pieces of each side. */
  lemma {:induction false} SplitAroundSep(a: string, b: string, sep: char)
    ensures Split(a + [sep] + b, sep) == Split(a, sep) + Split(b, sep)
  {
    var s := a + [sep] + b;
    if a == [] {
      assert s[1..] == b;
    } else {
      assert s[1..] == a[1..] + [sep] + b;
      SplitAroundSep(a[1..], b, sep);
    }
  }

  /** Appending separator-free text extends the last piece only. */
  lemma {:induction false} SplitAppend(a: string, b: string, sep: char)
    requires sep !in b
    ensures var pa := Split(a, sep);
            Split(a + b, sep) == pa[..|pa| - 1] + [pa[|pa| - 1] + b]
  {
    if a == [] {
      SplitWithoutSep(b, sep);
      assert a + b == b && Split(a, sep) == [[]];
      assert [] + b == b;
    } else {
      var pa, qa := Split(a, sep), Split(a[1..], sep);
      var qb := Split(a[1..] + b, sep);
      assert (a + b)[0] == a[0] && (a + b)[1..] == a[1..] + b;
      SplitAppend(a[1..], b, sep);
      assert qb == qa[..|qa| - 1] + [qa[|qa| - 1] + b];
      if a[0] == sep {
        assert Split(a + b, sep) == [[]] + qb;
        assert pa == [[]] + qa;
        assert pa[..|pa| - 1] == [[]] + qa[..|qa| - 1];
        assert pa[|pa| - 1] == qa[|qa| - 1];
      } else {
        assert Split(a + b, sep) == [[a[0]] + qb[0]] + qb[1..];
        assert pa == [[a[0]] + qa[0]] + qa[1..];
        ExtendLast([a[0]], qa, b);
      }
    }
  }

  /** Sequence algebra for SplitAppend: extending the last piece commutes with extending the first. */
  lemma ExtendLast(x: string, q: seq<string>, b: string)
    requires |q| >= 1
    ensures var p := [x + q[0]] + q[1..];
            var qb := q[..|q| - 1] + [q[|q| - 1] + b];
            [x + qb[0]] + qb[1..] == p[..|p| - 1] + [p[|p| - 1] + b]
  {
    var p := [x + q[0]] + q[1..];
    var qb := q[..|q| - 1] + [q[|q| - 1] + b];
    var lhs := [x + qb[0]] + qb[1..];
    var rhs := p[..|p| - 1] + [p[|p| - 1] + b];
    if |q| == 1 {
      assert x + (q[0] + b) == (x + q[0]) + b;
    } else {
      assert |lhs| == |rhs|;
      forall i | 0 <= i < |lhs|
        ensures lhs[i] == rhs[i]
      {
        if 0 < i < |lhs| - 1 {
          assert lhs[i] == q[i] && rhs[i] == q[i];
        }
      }
    }
  }

  /** Splitting a join of separator-free pieces gives the pieces back. */
  lemma {:induction false} SplitJoin(pieces: seq<string>, sep: char)
    requires |pieces| >= 1
    requires forall p :: p in pieces ==> sep !in p
    ensures Split(Join(pieces, sep), sep) == pieces
  {
    if |pieces| == 1 {
      SplitWithoutSep(pieces[0], sep);
    } else {
      assert pieces[0] in pieces;
      SplitWithoutSep(pieces[0], sep);
      SplitJoin(pieces[1..], sep);
      SplitAroundSep(pieces[0], Join(pieces[1..], sep), sep);
    }
  }

  /** A character absent from the string is absent from every piece. */
  lemma {:induction false} SplitKeepsAbsent(s: string, sep: char, c: char)
    requires c !in s
    ensures forall p :: p in Split(s, sep) ==> c !in p
  {
    if s != [] {
      assert c !in s[1..];
      SplitKeepsAbsent(s[1..], sep, c);
    }
  }

  /** Concatenating the pieces of a split deletes the separators. */
  lemma {:induction false} ConcatSplit(s: string, sep: char)
    ensures Concat(Split(s, sep)) == Drop(s, {sep})
  {
    if s != [] {
      var rest := Split(s[1..], sep);
      ConcatSplit(s[1..], sep);
      if s[0] == sep {
        assert Split(s, sep) == [[]] + rest;
        assert ([[]] + rest)[1..] == rest;
      } else {
        var r := Split(s, sep);
        assert r[1..] == rest[1..];
        assert Concat(rest) == rest[0] + Concat(rest[1..]);
      }
    }
  }

  // ---------------------------------------------------------------------
  // Facts about Drop
  // ---------------------------------------------------------------------

  /** Deletion distributes over concatenation. */
  lemma {:induction false} DropConcat(a: string, b: string, cs: set<char>)
    ensures Drop(a + b, cs) == Drop(a, cs) + Drop(b, cs)
  {
    if a != [] {
      assert (a + b)[0] == a[0] && (a + b)[1..] == a[1..] + b;
      DropConcat(a[1..], b, cs);
    } else {
      assert a + b == b;
    }
  }

  /** Deleting a set of characters, then a larger set, deletes the larger set. */
  lemma {:induction false} DropDrop(s: string, cs: set<char>, ds: set<char>)
    requires cs <= ds
    ensures Drop(Drop(s, cs), ds) == Drop(s, ds)
  {
    if s != [] {
      DropDrop(s[1..], cs, ds);
      DropConcat(if s[0] in cs then [] else [s[0]], Drop(s[1..], cs), ds);
    }
  }

  /** Deleting characters that do not occur changes nothing. */
  lemma {:induction false} DropAbsent(s: string, cs: set<char>)
    requires forall i :: 0 <= i < |s| ==> s[i] !in cs
    ensures Drop(s, cs) == s
  {
    if s != [] {
      DropAbsent(s[1..], cs);
    }
  }
}
