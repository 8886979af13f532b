/**
 * String helpers with Python's semantics: `str.replace` (every
 * non-overlapping occurrence, scanning left to right), `str.join`, and the
 * code-point lexicographic order that Python's `<` uses on strings and on
 * lists of strings.
 */
module Text {

  /** Python's `s.replace(pat, rep)` for a non-empty pattern. */
  function ReplaceAll(s: string, pat: string, rep: string): string
    requires pat != []
    decreases |s|
  {
    if |s| < |pat| then s
    else if s[..|pat|] == pat then rep + ReplaceAll(s[|pat|..], pat, rep)
    else [s[0]] + ReplaceAll(s[1..], pat, rep)
  }

  /** Replacing a single character removes it, provided the replacement does not contain it. */
  lemma {:induction false} ReplaceCharRemoves(s: string, c: char, rep: string)
    requires c !in rep
    ensures c !in ReplaceAll(s, [c], rep)
    decreases |s|
  {
    if |s| >= 1 {
      ReplaceCharRemoves(s[1..], c, rep);
    }
  }

  /** A character absent from the input and from the replacement stays absent. */
  lemma {:induction false} ReplaceKeepsAbsent(s: string, pat: string, rep: string, d: char)
    requires pat != [] && d !in s && d !in rep
    ensures d !in ReplaceAll(s, pat, rep)
    decreases |s|
  {
    if |s| >= |pat| {
      if s[..|pat|] == pat {
        ReplaceKeepsAbsent(s[|pat|..], pat, rep, d);
      } else {
        ReplaceKeepsAbsent(s[1..], pat, rep, d);
      }
    }
  }

  /** `pat` occurs in `s` at offset `i`. */
  predicate OccursAt(s: string, pat: string, i: nat)
  {
    i + |pat| <= |s| && s[i..i + |pat|] == pat
  }

  /** `pat` occurs in `s` at some offset. */
  ghost predicate Contains(s: string, pat: string)
  {
    exists i: nat :: OccursAt(s, pat, i)
  }

  /** A string without any occurrence of the pattern is left as it is. */
  lemma {:induction false} ReplaceAbsentIdentity(s: string, pat: string, rep: string)
    requires pat != [] && !Contains(s, pat)
    ensures ReplaceAll(s, pat, rep) == s
    decreases |s|
  {
    if |s| >= |pat| {
      assert !OccursAt(s, pat, 0);
      assert !Contains(s[1..], pat) by {
        if Contains(s[1..], pat) {
          var i: nat :| OccursAt(s[1..], pat, i);
          assert s[i + 1..i + 1 + |pat|] == s[1..][i..i + |pat|];
          assert OccursAt(s, pat, i + 1);
        }
      }
      ReplaceAbsentIdentity(s[1..], pat, rep);
    }
  }

  /** Python's `sep.join(parts)`. */
  function Join(sep: string, parts: seq<string>): (r: string)
    ensures parts == [] ==> r == []
    ensures |parts| == 1 ==> r == parts[0]
  {
    if |parts| == 0 then []
    else if |parts| == 1 then parts[0]
    else parts[0] + sep + Join(sep, parts[1..])
  }

  /** Concatenation of a sequence of strings (Python's `''.join`). */
  function Concat(parts: seq<string>): string
  {
    if parts == [] then [] else parts[0] + Concat(parts[1..])
  }

  lemma {:induction false} ConcatAppend(parts: seq<string>, s: string)
    ensures Concat(parts + [s]) == Concat(parts) + s
  {
    if parts != [] {
      assert (parts + [s])[1..] == parts[1..] + [s];
      ConcatAppend(parts[1..], s);
    }
  }

  /** `s` with every character `c` spelled as `f(c)`. */
  function MapChars(s: string, f: char -> string): string
  {
    if s == [] then [] else f(s[0]) + MapChars(s[1..], f)
  }

  lemma {:induction false} MapCharsAppend(a: string, b: string, f: char -> string)
    ensures MapChars(a + b, f) == MapChars(a, f) + MapChars(b, f)
  {
    if a == [] {
      assert a + b == b;
    } else {
      assert (a + b)[0] == a[0] && (a + b)[1..] == a[1..] + b;
      MapCharsAppend(a[1..], b, f);
    }
  }

  /** Spelling every character as itself changes nothing. */
  lemma {:induction false} MapCharsUnit(s: string, f: char -> string)
    requires forall x :: f(x) == [x]
    ensures MapChars(s, f) == s
  {
    if s != [] {
      MapCharsUnit(s[1..], f);
      assert s == [s[0]] + s[1..];
    }
  }

  /** Two spellings that agree on every character spell every string alike. */
  lemma {:induction false} MapCharsExt(s: string, f: char -> string, g: char -> string)
    requires forall x :: f(x) == g(x)
    ensures MapChars(s, f) == MapChars(s, g)
  {
    if s != [] {
      MapCharsExt(s[1..], f, g);
    }
  }

  /**
   * Replacing a single character after spelling each character is the
   * spelling that applies the replacement to each character's spelling:
   * with a one-character pattern, `str.replace` works character by character.
   */
  lemma {:induction false} ReplaceCharAfterMap(s: string, f: char -> string, g: char -> string, c: char, rep: string)
    requires forall x :: g(x) == ReplaceAll(f(x), [c], rep)
    ensures ReplaceAll(MapChars(s, f), [c], rep) == MapChars(s, g)
  {
    if s != [] {
      ReplaceCharAfterMap(s[1..], f, g, c, rep);
      ReplaceCharAppend(f(s[0]), MapChars(s[1..], f), c, rep);
    }
  }

  /** With a one-character pattern, `str.replace` distributes over concatenation. */
  lemma {:induction false} ReplaceCharAppend(a: string, b: string, c: char, rep: string)
    ensures ReplaceAll(a + b, [c], rep) == ReplaceAll(a, [c], rep) + ReplaceAll(b, [c], rep)
    decreases |a|
  {
    if a == [] {
      assert a + b == b;
    } else {
      assert (a + b)[1..] == a[1..] + b;
      assert (a + b)[..1] == a[..1] == [a[0]];
      ReplaceCharAppend(a[1..], b, c, rep);
    }
  }

  /** A character that does not occur is not replaced. */
  lemma {:induction false} ReplaceCharAbsent(s: string, c: char, rep: string)
    requires c !in s
    ensures ReplaceAll(s, [c], rep) == s
    decreases |s|
  {
    if s != [] {
      assert s[..1] == [s[0]];
      ReplaceCharAbsent(s[1..], c, rep);
      assert s == [s[0]] + s[1..];
    }
  }

  // ---------------------------------------------------------------------
  // Python's ordering of strings (by code point) and of lists of strings.
  // ---------------------------------------------------------------------

  /** `a <= b` on Python strings. */
  predicate StrLe(a: string, b: string)
    decreases |a|
  {
    |a| == 0 || (|b| != 0 && (a[0] < b[0] || (a[0] == b[0] && StrLe(a[1..], b[1..]))))
  }

  lemma {:induction false} StrLeTotal(a: string, b: string)
    ensures StrLe(a, b) || StrLe(b, a)
    decreases |a|
  {
    if |a| != 0 && |b| != 0 && a[0] == b[0] {
      StrLeTotal(a[1..], b[1..]);
    }
  }

  lemma {:induction false} StrLeAntisym(a: string, b: string)
    requires StrLe(a, b) && StrLe(b, a)
    ensures a == b
    decreases |a|
  {
    if |a| != 0 {
      StrLeAntisym(a[1..], b[1..]);
      assert a == [a[0]] + a[1..] && b == [b[0]] + b[1..];
    }
  }

  lemma {:induction false} StrLeTrans(a: string, b: string, c: string)
    requires StrLe(a, b) && StrLe(b, c)
    ensures StrLe(a, c)
    decreases |a|
  {
    if |a| != 0 && a[0] == b[0] && b[0] == c[0] {
      StrLeTrans(a[1..], b[1..], c[1..]);
    }
  }

  /** `a <= b` on Python lists of strings: the first differing element decides, a proper prefix is smaller. */
  predicate SeqLe(a: seq<string>, b: seq<string>)
    decreases |a|
  {
    |a| == 0 || (|b| != 0 && ((a[0] != b[0] && StrLe(a[0], b[0])) || (a[0] == b[0] && SeqLe(a[1..], b[1..]))))
  }

  lemma {:induction false} SeqLeTotal(a: seq<string>, b: seq<string>)
    ensures SeqLe(a, b) || SeqLe(b, a)
    decreases |a|
  {
    if |a| != 0 && |b| != 0 {
      if a[0] == b[0] {
        SeqLeTotal(a[1..], b[1..]);
      } else {
        StrLeTotal(a[0], b[0]);
      }
    }
  }

  lemma {:induction false} SeqLeAntisym(a: seq<string>, b: seq<string>)
    requires SeqLe(a, b) && SeqLe(b, a)
    ensures a == b
    decreases |a|
  {
    if |a| != 0 {
      if a[0] != b[0] {
        StrLeAntisym(a[0], b[0]);
      }
      SeqLeAntisym(a[1..], b[1..]);
      assert a == [a[0]] + a[1..] && b == [b[0]] + b[1..];
    }
  }

  lemma {:induction false} SeqLeTrans(a: seq<string>, b: seq<string>, c: seq<string>)
    requires SeqLe(a, b) && SeqLe(b, c)
    ensures SeqLe(a, c)
    decreases |a|
  {
    if |a| != 0 {
      if a[0] == b[0] && b[0] == c[0] {
        SeqLeTrans(a[1..], b[1..], c[1..]);
      } else if a[0] != b[0] && b[0] != c[0] {
        StrLeTrans(a[0], b[0], c[0]);
        if a[0] == c[0] {
          StrLeAntisym(a[0], b[0]);
        }
      }
    }
  }
}
