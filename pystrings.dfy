/**
 * The three Python string operations the launcher relies on, with the
 * semantics CPython gives them:
 *  - `needle in s` on two strings (a substring test),
 *  - `sep.join(parts)`,
 *  - `s.split(" ")` with an explicit one-character separator (empty fields
 *    are kept, and the empty string splits into one empty field).
 */
module PyStrings {

  /** Python's `needle in s` for two strings. */
  predicate Contains(s: string, needle: string)
    decreases |s|
  {
    needle <= s || (|s| > 0 && Contains(s[1..], needle))
  }

  /** Reference definition of a substring test: `needle` occurs at some offset `i`. */
  ghost predicate OccursAt(s: string, needle: string, i: int)
  {
    0 <= i && i + |needle| <= |s| && s[i..i + |needle|] == needle
  }

  /** Where a needle can occur in a non-empty string: at its very start, or somewhere in its tail. */
  lemma OccursAtShift(s: string, needle: string, i: int)
    requires |s| > 0
    ensures OccursAt(s, needle, i) <==> (i == 0 && needle <= s) || (i > 0 && OccursAt(s[1..], needle, i - 1))
  {
    if i > 0 && i + |needle| <= |s| {
      assert s[1..][i - 1..i - 1 + |needle|] == s[i..i + |needle|];
    } else if i == 0 && |needle| <= |s| {
      assert s[0..|needle|] == s[..|needle|];
    }
  }

  /** `Contains` is exactly "occurs at some offset". */
  lemma {:induction false} ContainsIffOccurs(s: string, needle: string)
    ensures Contains(s, needle) <==> exists i :: OccursAt(s, needle, i)
    decreases |s|
  {
    if needle <= s {
      assert s[0..|needle|] == needle;
      assert OccursAt(s, needle, 0);
    } else if |s| == 0 {
      forall i ensures !OccursAt(s, needle, i) { }
    } else {
      ContainsIffOccurs(s[1..], needle);
      forall i ensures OccursAt(s, needle, i) <==> i > 0 && OccursAt(s[1..], needle, i - 1) {
        OccursAtShift(s, needle, i);
      }
      if Contains(s[1..], needle) {
        var i :| OccursAt(s[1..], needle, i);
        assert OccursAt(s, needle, i + 1);
      }
    }
  }

  /** A needle longer than the haystack never occurs in it. */
  lemma {:induction false} TooLongNotContained(s: string, needle: string)
    requires |needle| > |s|
    ensures !Contains(s, needle)
    decreases |s|
  {
    if |s| > 0 {
      TooLongNotContained(s[1..], needle);
    }
  }

  /** A substring test survives putting text in front of the haystack. */
  lemma {:induction false} ContainsAfter(front: string, s: string, needle: string)
    requires Contains(s, needle)
    ensures Contains(front + s, needle)
    decreases |front|
  {
    if |front| == 0 {
      assert front + s == s;
    } else {
      assert (front + s)[1..] == front[1..] + s;
      ContainsAfter(front[1..], s, needle);
    }
  }

  /** A substring test survives putting text after the haystack. */
  lemma {:induction false} ContainsBefore(s: string, back: string, needle: string)
    requires Contains(s, needle)
    ensures Contains(s + back, needle)
    decreases |s|
  {
    if !(needle <= s) {
      assert (s + back)[1..] == s[1..] + back;
      ContainsBefore(s[1..], back, needle);
    }
  }

  /** A substring of a substring is a substring. */
  lemma {:induction false} ContainsTransitive(s: string, mid: string, needle: string)
    requires Contains(s, mid) && Contains(mid, needle)
    ensures Contains(s, needle)
    decreases |s|
  {
    if mid <= s {
      assert s == mid + s[|mid|..];
      ContainsBefore(mid, s[|mid|..], needle);
    } else {
      ContainsTransitive(s[1..], mid, needle);
    }
  }

  /** Python's `sep.join(parts)`. */
  function Join(parts: seq<string>, sep: string): string
  {
    if |parts| == 0 then ""
    else if |parts| == 1 then parts[0]
    else parts[0] + sep + Join(parts[1..], sep)
  }

  /** Joining never loses the first part: the result starts with it. */
  lemma {:induction false} JoinStartsWithFirst(parts: seq<string>, sep: string)
    requires |parts| > 0
    ensures parts[0] <= Join(parts, sep)
  {
    if |parts| > 1 {
      assert Join(parts, sep) == parts[0] + (sep + Join(parts[1..], sep));
    }
  }

  /** Every part of a join, taken with its separator and its right neighbour, is a substring of the join. */
  lemma {:induction false} JoinContainsNeighbours(parts: seq<string>, sep: string, i: nat)
    requires i + 1 < |parts|
    ensures Contains(Join(parts, sep), parts[i] + sep + parts[i + 1])
    decreases i
  {
    var j := Join(parts[1..], sep);
    assert Join(parts, sep) == parts[0] + sep + j;
    if i == 0 {
      JoinStartsWithFirst(parts[1..], sep);
      var k := |parts[0] + sep + parts[1]|;
      assert (parts[0] + sep + j)[..k] == parts[0] + sep + parts[1];
      assert parts[0] + sep + parts[1] <= Join(parts, sep);
    } else {
      JoinContainsNeighbours(parts[1..], sep, i - 1);
      assert parts[0] + sep + j == (parts[0] + sep) + j;
      ContainsAfter(parts[0] + sep, j, parts[i] + sep + parts[i + 1]);
    }
  }

  /** Every single part is a substring of the join. */
  lemma {:induction false} JoinContainsPart(parts: seq<string>, sep: string, i: nat)
    requires i < |parts|
    ensures Contains(Join(parts, sep), parts[i])
    decreases i
  {
    if i == 0 {
      JoinStartsWithFirst(parts, sep);
    } else {
      var j := Join(parts[1..], sep);
      assert Join(parts, sep) == (parts[0] + sep) + j;
      JoinContainsPart(parts[1..], sep, i - 1);
      ContainsAfter(parts[0] + sep, j, parts[i]);
    }
  }

  /** Joining two non-empty lists is joining each and putting one separator between them. */
  lemma {:induction false} JoinConcat(a: seq<string>, b: seq<string>, sep: string)
    requires |a| > 0 && |b| > 0
    ensures Join(a + b, sep) == Join(a, sep) + sep + Join(b, sep)
    decreases |a|
  {
    if |a| == 1 {
      assert (a + b)[1..] == b;
    } else {
      assert (a + b)[1..] == a[1..] + b;
      JoinConcat(a[1..], b, sep);
    }
  }

  /** Python's `s.split(sep)` for a one-character separator. */
  function Split(s: string, sep: char): (r: seq<string>)
    ensures |r| > 0
    decreases |s|
  {
    if |s| == 0 then [""]
    else if s[0] == sep then [""] + Split(s[1..], sep)
    else
      var rest := Split(s[1..], sep);
      [[s[0]] + rest[0]] + rest[1..]
  }

  /** No field produced by `Split` contains the separator. */
  lemma {:induction false} SplitFieldsHaveNoSeparator(s: string, sep: char)
    ensures forall f :: f in Split(s, sep) ==> sep !in f
    decreases |s|
  {
    if |s| > 0 {
      SplitFieldsHaveNoSeparator(s[1..], sep);
      var rest := Split(s[1..], sep);
      if s[0] != sep {
        assert rest[0] in rest;
        forall f | f in rest[1..] ensures f in rest { }
      }
    }
  }

  /** Round trip: joining the fields of a split with the separator gives back the input. */
  lemma {:induction false} JoinSplit(s: string, sep: char)
    ensures Join(Split(s, sep), [sep]) == s
    decreases |s|
  {
    if |s| > 0 {
      JoinSplit(s[1..], sep);
      var rest := Split(s[1..], sep);
      if s[0] == sep {
        assert Split(s, sep)[1..] == rest;
        assert s == [sep] + s[1..];
      } else if |rest| == 1 {
        assert s == [s[0]] + s[1..];
      } else {
        var r := Split(s, sep);
        assert r[1..] == rest[1..];
        assert Join(rest, [sep]) == rest[0] + [sep] + Join(rest[1..], [sep]);
        assert s == [s[0]] + s[1..];
      }
    }
  }

  /** Round trip the other way: fields free of the separator are recovered by splitting their join. */
  lemma {:induction false} SplitJoin(parts: seq<string>, sep: char)
    requires |parts| > 0
    requires forall f :: f in parts ==> sep !in f
    ensures Split(Join(parts, [sep]), sep) == parts
    decreases |parts|, |parts[0]|
  {
    var first := parts[0];
    if |first| == 0 {
      if |parts| > 1 {
        assert parts[1] in parts;
        forall f | f in parts[1..] ensures sep !in f { assert f in parts; }
        SplitJoin(parts[1..], sep);
        var j := Join(parts, [sep]);
        assert j == [sep] + Join(parts[1..], [sep]);
        assert j[1..] == Join(parts[1..], [sep]);
      }
    } else {
      var shorter := parts[0 := first[1..]];
      assert first in parts;
      forall f | f in shorter ensures sep !in f {
        if f != first[1..] {
          var k :| 0 <= k < |shorter| && shorter[k] == f;
          assert parts[k] == f;
        }
      }
      SplitJoin(shorter, sep);
      assert first[0] in first;
      var j := Join(parts, [sep]);
      if |parts| == 1 {
        assert j == first;
        assert j[1..] == Join(shorter, [sep]);
      } else {
        assert shorter[1..] == parts[1..];
        assert j == first + [sep] + Join(parts[1..], [sep]);
        assert j[1..] == Join(shorter, [sep]);
      }
      assert [first[0]] + first[1..] == first;
    }
  }
}
