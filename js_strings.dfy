/**
 * The JavaScript string operations the photo-key parser relies on, with the
 * semantics of the ECMAScript built-ins: `split` and `join` with a one-character
 * separator, `includes`, `endsWith`, and `replace` with a regular expression
 * anchored at the end of the input.
 */
module JsStrings {

  /** Number of occurrences of the character `c` in `s`. */
  function CountChar(s: string, c: char): (n: nat)
    ensures n == 0 <==> c !in s
    ensures n <= |s|
    decreases |s|
  {
    if |s| == 0 then 0
    else
      assert s == [s[0]] + s[1..];
      (if s[0] == c then 1 else 0) + CountChar(s[1..], c)
  }

  /** The count is the number of occurrences: the multiplicity of `c` in `s`. */
  lemma {:induction false} CountCharIsMultiplicity(s: string, c: char)
    ensures CountChar(s, c) == multiset(s)[c]
    decreases |s|
  {
    if |s| > 0 {
      CountCharIsMultiplicity(s[1..], c);
      assert s == [s[0]] + s[1..];
      assert multiset(s) == multiset([s[0]]) + multiset(s[1..]);
    }
  }

  /**
   * `s.split(c)`: the maximal separator-free pieces of `s`, in order. Empty
   * fields are kept for a leading, a trailing or a doubled separator, and the
   * empty string splits into one empty field.
   */
  function Split(s: string, c: char): (fields: seq<string>)
    ensures |fields| == CountChar(s, c) + 1
    ensures forall k :: 0 <= k < |fields| ==> c !in fields[k]
    decreases |s|
  {
    if |s| == 0 then [""]
    else
      var tail := Split(s[1..], c);
      if s[0] == c then [""] + tail
      else [[s[0]] + tail[0]] + tail[1..]
  }

  /** `parts.join(c)`; an empty array joins to the empty string. */
  function Join(parts: seq<string>, c: char): string
    decreases |parts|
  {
    if |parts| == 0 then ""
    else if |parts| == 1 then parts[0]
    else parts[0] + [c] + Join(parts[1..], c)
  }

  /** Joining two or more fields puts a separator after the first. */
  lemma JoinCons(first: string, rest: seq<string>, c: char)
    requires |rest| >= 1
    ensures Join([first] + rest, c) == first + [c] + Join(rest, c)
  {
    assert ([first] + rest)[1..] == rest;
  }

  /** Prepending a character to the first field prepends it to the join. */
  lemma JoinExtendFirst(ch: char, parts: seq<string>, c: char)
    requires |parts| >= 1
    ensures Join([[ch] + parts[0]] + parts[1..], c) == [ch] + Join(parts, c)
  {
    if |parts| > 1 {
      JoinCons([ch] + parts[0], parts[1..], c);
      JoinCons(parts[0], parts[1..], c);
      assert parts == [parts[0]] + parts[1..];
    }
  }

  /** Joining the fields of a split with the same separator gives back the string. */
  lemma {:induction false} JoinSplit(s: string, c: char)
    ensures Join(Split(s, c), c) == s
    decreases |s|
  {
    if |s| > 0 {
      var tail := Split(s[1..], c);
      JoinSplit(s[1..], c);
      if s[0] == c {
        JoinCons("", tail, c);
      } else {
        JoinExtendFirst(s[0], tail, c);
      }
      assert s == [s[0]] + s[1..];
    }
  }

  /** Splitting `a + b` where `a` holds no separator glues `a` onto the first field of `b`. */
  lemma {:induction false} SplitSeparatorFreePrefix(a: string, b: string, c: char)
    requires c !in a
    ensures Split(a + b, c) == [a + Split(b, c)[0]] + Split(b, c)[1..]
    decreases |a|
  {
    if |a| == 0 {
      assert a + b == b;
      assert a + Split(b, c)[0] == Split(b, c)[0];
      assert [a + Split(b, c)[0]] + Split(b, c)[1..] == Split(b, c);
    } else {
      var fields, rest := Split(b, c), Split(a[1..] + b, c);
      assert rest == [a[1..] + fields[0]] + fields[1..] by {
        SplitSeparatorFreePrefix(a[1..], b, c);
      }
      assert Split(a + b, c) == [[a[0]] + rest[0]] + rest[1..] by {
        assert (a + b)[0] == a[0] && (a + b)[1..] == a[1..] + b;
        SplitStep(a + b, c);
      }
      assert [a[0]] + rest[0] == a + fields[0] by {
        assert rest[0] == a[1..] + fields[0];
        ConcatAssoc([a[0]], a[1..], fields[0]);
        assert [a[0]] + a[1..] == a;
      }
      assert rest[1..] == fields[1..];
    }
  }

  /** One step of `Split` on a string that does not start with the separator. */
  lemma SplitStep(s: string, c: char)
    requires |s| > 0 && s[0] != c
    ensures Split(s, c) == [[s[0]] + Split(s[1..], c)[0]] + Split(s[1..], c)[1..]
  {
  }

  /** Splitting the join of separator-free fields gives back the fields. */
  lemma {:induction false} SplitJoin(parts: seq<string>, c: char)
    requires |parts| >= 1
    requires forall k :: 0 <= k < |parts| ==> c !in parts[k]
    ensures Split(Join(parts, c), c) == parts
    decreases |parts|
  {
    if |parts| == 1 {
      SplitSeparatorFreePrefix(parts[0], "", c);
      assert parts[0] + "" == parts[0];
    } else {
      var rest := Join(parts[1..], c);
      SplitJoin(parts[1..], c);
      assert parts[0] + [c] + rest == parts[0] + ([c] + rest);
      SplitSeparatorFreePrefix(parts[0], [c] + rest, c);
      assert ([c] + rest)[1..] == rest;
      assert Split([c] + rest, c) == [""] + parts[1..];
      assert parts[0] + "" == parts[0];
      assert ([""] + parts[1..])[1..] == parts[1..];
      assert parts == [parts[0]] + parts[1..];
    }
  }

  /** String concatenation is associative. */
  lemma ConcatAssoc(a: string, b: string, c: string)
    ensures a + b + c == a + (b + c)
  {
  }

  /** A join of three or more fields, with its first two fields written out. */
  lemma JoinFirstTwo(parts: seq<string>, c: char)
    requires |parts| >= 3
    ensures Join(parts, c) == parts[0] + [c] + parts[1] + [c] + Join(parts[2..], c)
  {
    assert parts[1..][1..] == parts[2..];
  }

  /** Every character of a string inside a suffix it ends with belongs to that suffix. */
  lemma ElementOfSuffix(s: string, suffix: string, q: int)
    requires EndsWith(s, suffix) && |s| - |suffix| <= q < |s|
    ensures s[q] in suffix
  {
    assert s[q] == s[|s| - |suffix|..][q - (|s| - |suffix|)];
  }

  /**
   * A suffix free of the separator, ending a string, also ends whatever follows
   * any separator in that string.
   */
  lemma SuffixAfterSeparator(a: string, b: string, c: char, suffix: string)
    requires EndsWith(a + [c] + b, suffix) && c !in suffix
    ensures EndsWith(b, suffix)
  {
    var s := a + [c] + b;
    assert s[|a|] == c;
    if |b| < |suffix| {
      ElementOfSuffix(s, suffix, |a|);
      assert false;
    }
    assert s[|s| - |suffix|..] == b[|b| - |suffix|..];
  }

  /** `t` occurs in `s` starting at index `i`. */
  predicate OccursAt(s: string, t: string, i: int)
  {
    0 <= i && i + |t| <= |s| && s[i..i + |t|] == t
  }

  /** `s.includes(t)`: a substring test anywhere in `s`. */
  function Includes(s: string, t: string): bool
    decreases |s|
  {
    if |t| > |s| then false
    else if s[..|t|] == t then true
    else Includes(s[1..], t)
  }

  /** `includes` holds exactly when the pattern occurs at some index. */
  lemma {:induction false} IncludesSpec(s: string, t: string)
    ensures Includes(s, t) <==> exists i :: OccursAt(s, t, i)
    decreases |s|
  {
    if |t| > |s| {
      assert forall i :: !OccursAt(s, t, i);
    } else if s[..|t|] == t {
      assert OccursAt(s, t, 0);
    } else {
      IncludesSpec(s[1..], t);
      if Includes(s[1..], t) {
        var i :| OccursAt(s[1..], t, i);
        assert s[1..][i..i + |t|] == s[i + 1..i + 1 + |t|];
        assert OccursAt(s, t, i + 1);
      } else {
        forall i | OccursAt(s, t, i)
          ensures false
        {
          if i > 0 {
            assert s[1..][i - 1..i - 1 + |t|] == s[i..i + |t|];
            assert OccursAt(s[1..], t, i - 1);
          }
        }
      }
    }
  }

  /** `s.endsWith(suffix)`. */
  predicate EndsWith(s: string, suffix: string)
  {
    |suffix| <= |s| && s[|s| - |suffix|..] == suffix
  }

  /**
   * `s.replace(/<suffix>$/, "")` for a literal suffix: without the `m` flag, `$`
   * matches only at the end of the input, so at most one trailing copy is removed.
   */
  function RemoveTrailing(s: string, suffix: string): (r: string)
    ensures EndsWith(s, suffix) ==> r + suffix == s
    ensures !EndsWith(s, suffix) ==> r == s
  {
    if EndsWith(s, suffix) then s[..|s| - |suffix|] else s
  }
}
