/** String helpers shared by the formatter and the language resolver:
    Python's `sep.join(parts)` and the substring test `needle in hay`. */
module Strings {

  /** `sep.join(parts)`: the parts in order, with `sep` between neighbours. */
  function Join(sep: string, parts: seq<string>): string
  {
    if |parts| == 0 then ""
    else if |parts| == 1 then parts[0]
    else parts[0] + sep + Join(sep, parts[1..])
  }

  /** Total length of a sequence of strings. */
  function SumLengths(parts: seq<string>): nat
  {
    if parts == [] then 0 else |parts[0]| + SumLengths(parts[1..])
  }

  /** Python's `needle in hay` on strings. */
  predicate Occurs(needle: string, hay: string)
  {
    exists j :: 0 <= j <= |hay| && needle <= hay[j..]
  }

  /** A non-empty join is as long as its parts plus one separator between each neighbouring pair. */
  lemma {:induction false} JoinLength(sep: string, parts: seq<string>)
    ensures |parts| == 0 ==> Join(sep, parts) == ""
    ensures |parts| > 0 ==> |Join(sep, parts)| == SumLengths(parts) + |sep| * (|parts| - 1)
  {
    if |parts| > 1 {
      JoinLength(sep, parts[1..]);
    }
  }

  /** A part that itself contains the separator is indistinguishable from two parts. */
  lemma JoinSplitsOnSeparator(sep: string, a: string, b: string, rest: seq<string>)
    ensures Join(sep, [a + sep + b] + rest) == Join(sep, [a, b] + rest)
  {
    var left, right := [a + sep + b] + rest, [a, b] + rest;
    assert right[1..] == [b] + rest;
    if rest == [] {
      assert Join(sep, right[1..]) == b;
    } else {
      assert left[1..] == rest;
      assert (a + sep + b) + sep + Join(sep, rest) == a + sep + (b + sep + Join(sep, rest));
    }
  }

  lemma OccursAt(needle: string, hay: string, j: int)
    requires 0 <= j <= |hay| && needle <= hay[j..]
    ensures Occurs(needle, hay)
  {
  }

  /** Whatever sits between a prefix and a suffix occurs in the whole. */
  lemma OccursInMiddle(p: string, needle: string, q: string)
    ensures Occurs(needle, p + needle + q)
  {
    var hay := p + needle + q;
    assert hay[|p|..] == needle + q;
    OccursAt(needle, hay, |p|);
  }

  /** Occurrence is transitive. */
  lemma OccursTransitive(a: string, b: string, c: string)
    requires Occurs(a, b) && Occurs(b, c)
    ensures Occurs(a, c)
  {
    var i :| 0 <= i <= |b| && a <= b[i..];
    var j :| 0 <= j <= |c| && b <= c[j..];
    assert c[j + i..][..|a|] == c[j..][i..][..|a|] == b[i..][..|a|] == a;
    OccursAt(a, c, j + i);
  }

  /** Every part of a join occurs in it. */
  lemma {:induction false} JoinContainsPart(sep: string, parts: seq<string>, k: nat)
    requires k < |parts|
    ensures Occurs(parts[k], Join(sep, parts))
  {
    if |parts| == 1 {
      OccursInMiddle("", parts[0], "");
      assert "" + parts[0] + "" == parts[0];
    } else if k == 0 {
      OccursInMiddle("", parts[0], sep + Join(sep, parts[1..]));
      assert "" + parts[0] + (sep + Join(sep, parts[1..])) == Join(sep, parts);
    } else {
      JoinContainsPart(sep, parts[1..], k - 1);
      OccursInMiddle(parts[0] + sep, Join(sep, parts[1..]), "");
      assert (parts[0] + sep) + Join(sep, parts[1..]) + "" == Join(sep, parts);
      OccursTransitive(parts[k], Join(sep, parts[1..]), Join(sep, parts));
    }
  }

  /** In `a + b + c + d`, both `b` and `d` occur. */
  lemma OccursInFourParts(a: string, b: string, c: string, d: string)
    ensures Occurs(b, a + b + c + d)
    ensures Occurs(d, a + b + c + d)
  {
    assert a + b + c + d == a + b + (c + d);
    OccursInMiddle(a, b, c + d);
    assert a + b + c + d == (a + b + c) + d + "";
    OccursInMiddle(a + b + c, d, "");
  }
}
