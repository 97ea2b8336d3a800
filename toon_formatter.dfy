/** The compact "TOON" formatter: `ToonFormatter.format` and its nested
    recursive serialiser `_compact`.

    A value tree is an object (entries in insertion order), an array, or a
    primitive. Primitives are held as the text Python's `str()` gives them;
    the serialiser copies that text verbatim, without quoting or escaping. */
module ToonFormatter {
  import opened Wrappers
  import opened Strings

  datatype Value =
    | Obj(entries: seq<Entry>)
    | Arr(elems: seq<Value>)
    | Prim(text: string)

  /** One `key: value` item of a dict. */
  datatype Entry = Entry(key: string, value: Value)

  /** The formatter's output record (`ConversionOutput`); `metadata` is never set by this formatter. */
  datatype ConversionOutput = ConversionOutput(
    content: string,
    format: string,
    tokenCount: Option<nat>,
    metadata: Option<map<string, string>>)

  /** A tree a Python dict can produce: every object's keys are pairwise distinct. */
  ghost predicate WellFormed(v: Value)
    decreases v
  {
    match v
    case Obj(es) =>
      (forall i, j :: 0 <= i < j < |es| ==> es[i].key != es[j].key)
      && (forall i :: 0 <= i < |es| ==> WellFormed(es[i].value))
    case Arr(vs) => forall i :: 0 <= i < |vs| ==> WellFormed(vs[i])
    case Prim(_) => true
  }

  // ---------------------------------------------------------------------------
  // The serialiser
  // ---------------------------------------------------------------------------

  /** `_compact(obj)`: an object becomes its `key:value` entries joined by `,`;
      an array becomes `[` + its elements joined by `,` + `]`; a primitive is its text. */
  function Compact(v: Value): string
    decreases v
  {
    match v
    case Obj(es) => Join(",", EntryTexts(es))
    case Arr(vs) => "[" + Join(",", ElementTexts(vs)) + "]"
    case Prim(s) => s
  }

  /** The generator `f"{k}:{_compact(v)}" for k, v in obj.items()`. */
  function EntryTexts(es: seq<Entry>): (r: seq<string>)
    decreases es
    ensures |r| == |es|
    ensures forall i :: 0 <= i < |es| ==> r[i] == es[i].key + ":" + Compact(es[i].value)
  {
    if es == [] then []
    else
      [es[0].key + ":" + Compact(es[0].value)] + EntryTexts(es[1..])
  }

  /** The generator `_compact(v) for v in obj`. */
  function ElementTexts(vs: seq<Value>): (r: seq<string>)
    decreases vs
    ensures |r| == |vs|
    ensures forall i :: 0 <= i < |vs| ==> r[i] == Compact(vs[i])
  {
    if vs == [] then [] else [Compact(vs[0])] + ElementTexts(vs[1..])
  }

  /** `ToonFormatter.format(data)`: the compact text, the tag "toon", and the
      token count that the external counter gives for that same text. The
      counter may raise (tiktoken rejects special tokens such as `<|endoftext|>`,
      which a primitive can carry into the text), and `format` lets that through. */
  function Format(data: Value, countTokens: string -> Result<nat, string>): (r: Result<ConversionOutput, string>)
    ensures r.Success? <==> countTokens(Compact(data)).Success?
    ensures r.Success? ==> r.value.content == Compact(data)
    ensures r.Success? ==> r.value.format == "toon"
    ensures r.Success? ==> r.value.tokenCount == Some(countTokens(r.value.content).value)
    ensures r.Success? ==> r.value.metadata == None
    ensures r.Failure? ==> r.error == countTokens(Compact(data)).error
  {
    var content := Compact(data);
    match countTokens(content)
    case Success(tokens) => Success(ConversionOutput(content, "toon", Some(tokens), None))
    case Failure(e) => Failure(e)
  }

  // ---------------------------------------------------------------------------
  // Shape of the output
  // ---------------------------------------------------------------------------

  /** An object renders as its entries, in insertion order, joined by `,`;
      the empty object renders as the empty string. */
  lemma ObjectRendering(es: seq<Entry>)
    ensures Compact(Obj(es)) == Join(",", seq(|es|, i requires 0 <= i < |es| => es[i].key + ":" + Compact(es[i].value)))
    ensures es == [] ==> Compact(Obj(es)) == ""
  {
    assert EntryTexts(es) == seq(|es|, i requires 0 <= i < |es| => es[i].key + ":" + Compact(es[i].value));
  }

  /** An array renders bracketed, its elements joined by `,`; the empty array renders `[]`. */
  lemma ArrayRendering(vs: seq<Value>)
    ensures Compact(Arr(vs)) == "[" + Join(",", seq(|vs|, i requires 0 <= i < |vs| => Compact(vs[i]))) + "]"
    ensures vs == [] ==> Compact(Arr(vs)) == "[]"
    ensures |Compact(Arr(vs))| >= 2
    ensures Compact(Arr(vs))[0] == '[' && Compact(Arr(vs))[|Compact(Arr(vs))| - 1] == ']'
  {
    assert ElementTexts(vs) == seq(|vs|, i requires 0 <= i < |vs| => Compact(vs[i]));
  }

  /** Sum of the rendered lengths of the elements. */
  ghost function ElementsLength(vs: seq<Value>): nat
  {
    if vs == [] then 0 else |Compact(vs[0])| + ElementsLength(vs[1..])
  }

  /** Sum over the entries of `len(key) + 1 + len(rendered value)`. */
  ghost function EntriesLength(es: seq<Entry>): nat
  {
    if es == [] then 0 else |es[0].key| + 1 + |Compact(es[0].value)| + EntriesLength(es[1..])
  }

  lemma {:induction false} ElementTextsLength(vs: seq<Value>)
    ensures SumLengths(ElementTexts(vs)) == ElementsLength(vs)
  {
    if vs != [] {
      ElementTextsLength(vs[1..]);
      assert ElementTexts(vs)[1..] == ElementTexts(vs[1..]);
    }
  }

  lemma {:induction false} EntryTextsLength(es: seq<Entry>)
    ensures SumLengths(EntryTexts(es)) == EntriesLength(es)
  {
    if es != [] {
      EntryTextsLength(es[1..]);
      assert EntryTexts(es)[1..] == EntryTexts(es[1..]);
    }
  }

  /** A non-empty array of n elements renders in 2 + (sum of element lengths) + (n - 1) characters. */
  lemma ArrayLength(vs: seq<Value>)
    requires |vs| > 0
    ensures |Compact(Arr(vs))| == 2 + ElementsLength(vs) + (|vs| - 1)
  {
    JoinLength(",", ElementTexts(vs));
    ElementTextsLength(vs);
  }

  /** A non-empty object of n entries renders in (sum of len(key) + 1 + len(value)) + (n - 1) characters. */
  lemma ObjectLength(es: seq<Entry>)
    requires |es| > 0
    ensures |Compact(Obj(es))| == EntriesLength(es) + (|es| - 1)
  {
    JoinLength(",", EntryTexts(es));
    EntryTextsLength(es);
  }

  // ---------------------------------------------------------------------------
  // Verbatim output
  // ---------------------------------------------------------------------------

  lemma EntryTextHoldsParts(key: string, text: string)
    ensures Occurs(key, key + ":" + text) && Occurs(text, key + ":" + text)
  {
    assert key + ":" + text == "" + key + (":" + text) == (key + ":") + text + "";
    OccursInMiddle("", key, ":" + text);
    OccursInMiddle(key + ":", text, "");
  }

  /** Every top-level key, and every top-level value's rendering, appears in the output as is. */
  lemma KeysAppearVerbatim(es: seq<Entry>, k: nat)
    requires k < |es|
    ensures Occurs(es[k].key, Compact(Obj(es)))
    ensures Occurs(Compact(es[k].value), Compact(Obj(es)))
  {
    var key, text, whole := es[k].key, Compact(es[k].value), Compact(Obj(es));
    var part := EntryTexts(es)[k];
    JoinContainsPart(",", EntryTexts(es), k);
    EntryTextHoldsParts(key, text);
    OccursTransitive(key, part, whole);
    OccursTransitive(text, part, whole);
  }

  /** Every element's rendering appears in its array's output as is. */
  lemma ElementsAppearVerbatim(vs: seq<Value>, k: nat)
    requires k < |vs|
    ensures Occurs(Compact(vs[k]), Compact(Arr(vs)))
  {
    var inner := Join(",", ElementTexts(vs));
    JoinContainsPart(",", ElementTexts(vs), k);
    OccursInMiddle("[", inner, "]");
    OccursTransitive(Compact(vs[k]), inner, Compact(Arr(vs)));
  }

  /** The record `{"name": "Raghvender", "role": "ML Engineer"}`. */
  function ProfileRecord(): Value
  {
    Obj([Entry("name", Prim("Raghvender")), Entry("role", Prim("ML Engineer"))])
  }

  lemma ProfileRecordEntries()
    ensures EntryTexts(ProfileRecord().entries) == ["name:Raghvender", "role:ML Engineer"]
  {
    var es := ProfileRecord().entries;
    assert Compact(es[0].value) == "Raghvender" && Compact(es[1].value) == "ML Engineer";
    assert "name" + ":" + "Raghvender" == "name:Raghvender";
    assert "role" + ":" + "ML Engineer" == "role:ML Engineer";
  }

  /** The JSON record used by the formatter's test renders as `name:Raghvender,role:ML Engineer`,
      which contains "name". */
  lemma ProfileRecordRendering(countTokens: string -> Result<nat, string>)
    ensures Compact(ProfileRecord()) == "name:Raghvender,role:ML Engineer"
    ensures Occurs("name", Compact(ProfileRecord()))
    ensures Format(ProfileRecord(), countTokens).Success? ==>
      Format(ProfileRecord(), countTokens).value.content == "name:Raghvender,role:ML Engineer"
  {
    var parts := EntryTexts(ProfileRecord().entries);
    ProfileRecordEntries();
    assert parts[1..] == ["role:ML Engineer"];
    assert Join(",", parts) == "name:Raghvender" + "," + "role:ML Engineer";
    assert "name:Raghvender" + "," + "role:ML Engineer" == "name:Raghvender,role:ML Engineer";
    KeysAppearVerbatim(ProfileRecord().entries, 0);
  }

  // ---------------------------------------------------------------------------
  // Non-injectivity
  // ---------------------------------------------------------------------------

  /** `{"a": "b,c:d"}` and `{"a": "b", "c": "d"}` are different dicts with the same output `a:b,c:d`. */
  lemma NotInjectiveExample()
    ensures WellFormed(Obj([Entry("a", Prim("b,c:d"))]))
    ensures WellFormed(Obj([Entry("a", Prim("b")), Entry("c", Prim("d"))]))
    ensures Obj([Entry("a", Prim("b,c:d"))]) != Obj([Entry("a", Prim("b")), Entry("c", Prim("d"))])
    ensures Compact(Obj([Entry("a", Prim("b,c:d"))])) == "a:b,c:d"
    ensures Compact(Obj([Entry("a", Prim("b")), Entry("c", Prim("d"))])) == "a:b,c:d"
  {
    var one, two := [Entry("a", Prim("b,c:d"))], [Entry("a", Prim("b")), Entry("c", Prim("d"))];
    assert Compact(one[0].value) == "b,c:d";
    assert "a" + ":" + "b,c:d" == "a:b,c:d";
    assert EntryTexts(one) == ["a:b,c:d"];
    assert Compact(two[0].value) == "b" && Compact(two[1].value) == "d";
    assert "a" + ":" + "b" == "a:b" && "c" + ":" + "d" == "c:d";
    var parts := EntryTexts(two);
    assert parts == ["a:b", "c:d"];
    assert parts[1..] == ["c:d"];
    assert "a:b" + "," + "c:d" == "a:b,c:d";
  }

  lemma ElementTextsCons(v: Value, rest: seq<Value>)
    ensures ElementTexts([v] + rest) == [Compact(v)] + ElementTexts(rest)
  {
    assert ([v] + rest)[1..] == rest;
  }

  /** Both arrays of the collision below are trees Python can build when the rest of the array is. */
  lemma CollidingArraysWellFormed(a: string, b: string, rest: seq<Value>)
    requires forall i :: 0 <= i < |rest| ==> WellFormed(rest[i])
    ensures WellFormed(Arr([Prim(a + "," + b)] + rest)) && WellFormed(Arr([Prim(a), Prim(b)] + rest))
  {
    var left, right := [Prim(a + "," + b)] + rest, [Prim(a), Prim(b)] + rest;
    assert forall i :: 1 <= i < |left| ==> left[i] == rest[i - 1];
    assert forall i :: 2 <= i < |right| ==> right[i] == rest[i - 2];
  }

  lemma ArrayCommaRendering(a: string, b: string, rest: seq<Value>)
    ensures Compact(Arr([Prim(a + "," + b)] + rest)) == Compact(Arr([Prim(a), Prim(b)] + rest))
  {
    var left, right := [Prim(a + "," + b)] + rest, [Prim(a), Prim(b)] + rest;
    assert ElementTexts(left) == [a + "," + b] + ElementTexts(rest);
    assert ElementTexts(right) == [a, b] + ElementTexts(rest);
    JoinSplitsOnSeparator(",", a, b, ElementTexts(rest));
  }

  /** A primitive whose text holds `,` collides with two primitives in an array,
      and both arrays are trees Python can build when the rest of the array is. */
  lemma ArrayCommaCollision(a: string, b: string, rest: seq<Value>)
    requires forall i :: 0 <= i < |rest| ==> WellFormed(rest[i])
    ensures WellFormed(Arr([Prim(a + "," + b)] + rest)) && WellFormed(Arr([Prim(a), Prim(b)] + rest))
    ensures Arr([Prim(a + "," + b)] + rest) != Arr([Prim(a), Prim(b)] + rest)
    ensures Compact(Arr([Prim(a + "," + b)] + rest)) == Compact(Arr([Prim(a), Prim(b)] + rest))
  {
    CollidingArraysWellFormed(a, b, rest);
    assert |[Prim(a + "," + b)] + rest| != |[Prim(a), Prim(b)] + rest|;
    ArrayCommaRendering(a, b, rest);
  }

  lemma EntryTextsCons(e: Entry, rest: seq<Entry>)
    ensures EntryTexts([e] + rest) == [e.key + ":" + Compact(e.value)] + EntryTexts(rest)
  {
    assert ([e] + rest)[1..] == rest;
  }

  lemma EntryTextsCons2(e1: Entry, e2: Entry, rest: seq<Entry>)
    ensures EntryTexts([e1, e2] + rest)
         == [e1.key + ":" + Compact(e1.value), e2.key + ":" + Compact(e2.value)] + EntryTexts(rest)
  {
    assert [e1, e2] + rest == [e1] + ([e2] + rest);
    EntryTextsCons(e1, [e2] + rest);
    EntryTextsCons(e2, rest);
  }

  lemma GluedEntryText(k1: string, a: string, k2: string, b: string)
    ensures k1 + ":" + (a + "," + k2 + ":" + b) == (k1 + ":" + a) + "," + (k2 + ":" + b)
  {
  }

  /** Both objects of the collision below are dicts: their keys are distinct. */
  lemma CollidingObjectsWellFormed(k1: string, a: string, k2: string, b: string, rest: seq<Entry>)
    requires k1 != k2 && WellFormed(Obj(rest))
    requires forall i :: 0 <= i < |rest| ==> rest[i].key != k1 && rest[i].key != k2
    ensures WellFormed(Obj([Entry(k1, Prim(a + "," + k2 + ":" + b))] + rest))
    ensures WellFormed(Obj([Entry(k1, Prim(a)), Entry(k2, Prim(b))] + rest))
  {
    var left, right := [Entry(k1, Prim(a + "," + k2 + ":" + b))] + rest, [Entry(k1, Prim(a)), Entry(k2, Prim(b))] + rest;
    assert forall i :: 1 <= i < |left| ==> left[i] == rest[i - 1];
    assert forall i :: 2 <= i < |right| ==> right[i] == rest[i - 2];
  }

  /** A value text holding `,k2:` collides with a second entry keyed `k2` in an object;
      with distinct keys not used in the rest of a dict, both objects are dicts. */
  lemma ObjectEntryCollision(k1: string, a: string, k2: string, b: string, rest: seq<Entry>)
    requires k1 != k2 && WellFormed(Obj(rest))
    requires forall i :: 0 <= i < |rest| ==> rest[i].key != k1 && rest[i].key != k2
    ensures WellFormed(Obj([Entry(k1, Prim(a + "," + k2 + ":" + b))] + rest))
    ensures WellFormed(Obj([Entry(k1, Prim(a)), Entry(k2, Prim(b))] + rest))
    ensures Obj([Entry(k1, Prim(a + "," + k2 + ":" + b))] + rest) != Obj([Entry(k1, Prim(a)), Entry(k2, Prim(b))] + rest)
    ensures Compact(Obj([Entry(k1, Prim(a + "," + k2 + ":" + b))] + rest))
         == Compact(Obj([Entry(k1, Prim(a)), Entry(k2, Prim(b))] + rest))
  {
    CollidingObjectsWellFormed(k1, a, k2, b, rest);
    var glued := a + "," + k2 + ":" + b;
    var left, right := [Entry(k1, Prim(glued))] + rest, [Entry(k1, Prim(a)), Entry(k2, Prim(b))] + rest;
    var tail := EntryTexts(rest);
    var x, y := k1 + ":" + a, k2 + ":" + b;
    assert |left| != |right|;
    EntryTextsCons(Entry(k1, Prim(glued)), rest);
    GluedEntryText(k1, a, k2, b);
    assert EntryTexts(left) == [x + "," + y] + tail;
    EntryTextsCons2(Entry(k1, Prim(a)), Entry(k2, Prim(b)), rest);
    assert EntryTexts(right) == [x, y] + tail;
    JoinSplitsOnSeparator(",", x, y, tail);
  }

  /** Every object or array renders exactly like the primitive holding its own rendering. */
  lemma ContainersCollideWithPrimitives(v: Value)
    requires !v.Prim?
    ensures Prim(Compact(v)) != v && Compact(Prim(Compact(v))) == Compact(v)
  {
  }

  // ---------------------------------------------------------------------------
  // Brackets
  // ---------------------------------------------------------------------------

  predicate NoBracket(s: string)
  {
    forall i :: 0 <= i < |s| ==> s[i] != '[' && s[i] != ']'
  }

  /** No primitive text and no key holds `[` or `]`. */
  ghost predicate BracketFree(v: Value)
    decreases v
  {
    match v
    case Obj(es) => forall i :: 0 <= i < |es| ==> NoBracket(es[i].key) && BracketFree(es[i].value)
    case Arr(vs) => forall i :: 0 <= i < |vs| ==> BracketFree(vs[i])
    case Prim(s) => NoBracket(s)
  }

  /** Number of `[` minus number of `]`. */
  function Depth(s: string): int
  {
    if s == [] then 0
    else (if s[0] == '[' then 1 else if s[0] == ']' then -1 else 0) + Depth(s[1..])
  }

  /** Balanced and properly nested: no prefix closes more brackets than it opened, and the whole closes all. */
  ghost predicate Balanced(s: string)
  {
    Depth(s) == 0 && forall k :: 0 <= k <= |s| ==> Depth(s[..k]) >= 0
  }

  lemma {:induction false} DepthConcat(a: string, b: string)
    ensures Depth(a + b) == Depth(a) + Depth(b)
  {
    if a != [] {
      assert (a + b)[0] == a[0];
      assert (a + b)[1..] == a[1..] + b;
      DepthConcat(a[1..], b);
    } else {
      assert a + b == b;
    }
  }

  lemma {:induction false} DepthNoBracket(s: string)
    requires NoBracket(s)
    ensures Depth(s) == 0
  {
    if s != [] {
      DepthNoBracket(s[1..]);
    }
  }

  lemma NoBracketBalanced(s: string)
    requires NoBracket(s)
    ensures Balanced(s)
  {
    forall k | 0 <= k <= |s| ensures Depth(s[..k]) >= 0 {
      DepthNoBracket(s[..k]);
    }
    DepthNoBracket(s);
  }

  lemma BalancedConcat(a: string, b: string)
    requires Balanced(a) && Balanced(b)
    ensures Balanced(a + b)
  {
    DepthConcat(a, b);
    forall k | 0 <= k <= |a + b| ensures Depth((a + b)[..k]) >= 0 {
      if k <= |a| {
        assert (a + b)[..k] == a[..k];
      } else {
        assert (a + b)[..k] == a + b[..k - |a|];
        DepthConcat(a, b[..k - |a|]);
      }
    }
  }

  lemma BalancedWrap(b: string)
    requires Balanced(b)
    ensures Balanced("[" + b + "]")
  {
    var s := "[" + b + "]";
    DepthConcat("[", b + "]");
    DepthConcat(b, "]");
    assert s == "[" + (b + "]");
    forall k | 0 <= k <= |s| ensures Depth(s[..k]) >= 0 {
      if k == 0 {
        assert s[..k] == [];
      } else if k <= |b| + 1 {
        assert s[..k] == "[" + b[..k - 1];
        DepthConcat("[", b[..k - 1]);
      } else {
        assert s[..k] == s;
      }
    }
  }

  lemma {:induction false} JoinBalanced(sep: string, parts: seq<string>)
    requires NoBracket(sep)
    requires forall i :: 0 <= i < |parts| ==> Balanced(parts[i])
    ensures Balanced(Join(sep, parts))
  {
    if |parts| == 0 {
      NoBracketBalanced("");
    } else if |parts| > 1 {
      JoinBalanced(sep, parts[1..]);
      NoBracketBalanced(sep);
      BalancedConcat(parts[0], sep);
      BalancedConcat(parts[0] + sep, Join(sep, parts[1..]));
    }
  }

  /** If no primitive text and no key holds a bracket, the output's brackets are balanced and nested. */
  lemma {:induction false} CompactBalanced(v: Value)
    requires BracketFree(v)
    ensures Balanced(Compact(v))
    decreases v
  {
    match v
    case Prim(s) =>
      NoBracketBalanced(s);
    case Arr(vs) =>
      var parts := ElementTexts(vs);
      forall i | 0 <= i < |parts| ensures Balanced(parts[i]) {
        CompactBalanced(vs[i]);
      }
      JoinBalanced(",", parts);
      BalancedWrap(Join(",", parts));
    case Obj(es) =>
      var parts := EntryTexts(es);
      forall i | 0 <= i < |parts| ensures Balanced(parts[i]) {
        CompactBalanced(es[i].value);
        NoBracketBalanced(es[i].key + ":");
        BalancedConcat(es[i].key + ":", Compact(es[i].value));
      }
      JoinBalanced(",", parts);
  }
}
