/**
 * multi-org-comparator/src/metadataNormalize.ts: the text normaliser used
 * before comparing two retrieved files, and `sortDeep`, the structural
 * canonicaliser applied to a parsed XML document. The XML parser and builder
 * are foreign; `CanonicalizeXml` takes them as parameters.
 */
module MetadataNormalize {
  import opened Wrappers
  import opened Strings
  import opened Seqs
  import opened TextRewrite

  // ------------------------------------------------------------ normalizeText

  /** CRLF to LF, then blanks before line ends removed, then trailing '\n's removed. */
  function NormalizeText(text: string): (r: string)
    ensures |r| == 0 || r[|r| - 1] != '\n'
    ensures NoBlankBeforeLineEnd(r)
    ensures NoLoneCr(text) ==> '\r' !in r
  {
    var crlf := ReplaceCrlf(text);
    var blanks := StripLineEndBlanks(crlf);
    StripLineEndBlanksSound(crlf);
    StripTrailingNewlinesShape(blanks);
    StripTrailingNewlinesKeeps(blanks);
    NoCrChain(text);
    StripTrailingNewlines(blanks)
  }

  lemma NoCrChain(text: string)
    ensures NoLoneCr(text) ==> '\r' !in StripLineEndBlanks(ReplaceCrlf(text))
  {
    if NoLoneCr(text) {
      ReplaceCrlfRemovesCr(text);
      StripLineEndBlanksKeepsNoCr(ReplaceCrlf(text));
    }
  }

  lemma NormalizeTextEmpty()
    ensures NormalizeText("") == ""
  {
  }

  /** Normalising twice is normalising once, for text whose every '\r' starts a CRLF. */
  lemma NormalizeTextIdempotent(text: string)
    requires NoLoneCr(text)
    ensures NormalizeText(NormalizeText(text)) == NormalizeText(text)
  {
    var n := NormalizeText(text);
    ReplaceCrlfIdentity(n);
    StripLineEndBlanksIdentity(n);
    StripTrailingNewlinesIdentity(n);
  }

  /** A lone '\r' before a CRLF survives one pass and is rewritten by the next. */
  lemma NormalizeTextNotIdempotentOnLoneCr()
    ensures NormalizeText("a\r\r\nb") == "a\r\nb"
    ensures NormalizeText(NormalizeText("a\r\r\nb")) != NormalizeText("a\r\r\nb")
  {
    assert ReplaceCrlf("a\r\r\nb") == "a\r\nb" by {
      assert ReplaceCrlf("\nb") == "\nb" by { assert ReplaceCrlf("b") == "b"; }
      assert ReplaceCrlf("\r\r\nb") == "\r" + ReplaceCrlf("\r\nb");
    }
    assert StripLineEndBlanks("a\r\nb") == "a\r\nb" by {
      StripLineEndBlanksIdentity("a\r\nb");
    }
    assert ReplaceCrlf("a\r\nb") == "a\nb" by {
      assert ReplaceCrlf("\r\nb") == "\n" + ReplaceCrlf("b");
    }
    StripLineEndBlanksIdentity("a\nb");
  }

  /** A run of text with no blank and no line terminator in it. */
  predicate IsWord(s: string)
  {
    forall i :: 0 <= i < |s| ==> !IsBlank(s[i]) && !IsLineTerminator(s[i])
  }

  predicate IsBlankRun(s: string)
  {
    |s| > 0 && forall i :: 0 <= i < |s| ==> IsBlank(s[i])
  }

  /**
   * Blanks before a line end, a CRLF and a final newline do not change the
   * normalised text: `a` + blanks + CRLF + `b` + blanks + LF normalises to
   * the same text as `a` + LF + `b`.
   */
  lemma NormalizeTextIgnoresLineEndNoise(a: string, u: string, b: string, v: string)
    requires IsWord(a) && IsWord(b) && |b| > 0
    requires IsBlankRun(u) && IsBlankRun(v)
    ensures NormalizeText(a + u + "\r\n" + b + v + "\n") == a + "\n" + b
    ensures NormalizeText(a + "\n" + b) == a + "\n" + b
  {
    var t := a + u + "\r\n" + b + v + "\n";
    NoiseCrlfStep(a, u, b, v);
    NoiseBlanksStep(a, u, b, v);
    var d := a + "\n" + b + "\n";
    assert d[..|d| - 1] == a + "\n" + b;
    StripTrailingNewlinesIdentity(a + "\n" + b);
    assert StripTrailingNewlines(d) == a + "\n" + b;
    assert NormalizeText(t) == StripTrailingNewlines(StripLineEndBlanks(ReplaceCrlf(t)));

    var e := a + "\n" + b;
    assert '\r' !in e by { assert forall i :: 0 <= i < |e| ==> e[i] != '\r'; }
    ReplaceCrlfIdentity(e);
    assert NoBlankBeforeLineEnd(e) by { assert forall i :: 0 <= i < |e| ==> !IsBlank(e[i]); }
    StripLineEndBlanksIdentity(e);
  }

  lemma NoiseCrlfStep(a: string, u: string, b: string, v: string)
    requires IsWord(a) && IsWord(b)
    requires IsBlankRun(u) && IsBlankRun(v)
    ensures ReplaceCrlf(a + u + "\r\n" + b + v + "\n") == a + (u + ("\n" + (b + (v + "\n"))))
  {
    var w := b + (v + "\n");
    NoCrInWordThenBlanks(a, u);
    NoCrInWordThenBlanks(b, v + "\n");
    assert a + u + "\r\n" + b + v + "\n" == (a + u) + ("\r\n" + w);
    CrlfBetween(a + u, w);
  }

  /** A CRLF between two runs of text with no '\r' becomes a single '\n'. */
  lemma CrlfBetween(x: string, w: string)
    requires '\r' !in x && '\r' !in w
    ensures ReplaceCrlf(x + ("\r\n" + w)) == x + ("\n" + w)
  {
    if |x| > 0 { assert x[|x| - 1] in x; }
    ReplaceCrlfConcat(x, "\r\n" + w);
    ReplaceCrlfIdentity(x);
    ReplaceCrlfPairFirst("\r\n", w);
    assert "\r\n"[2..] + w == w;
    ReplaceCrlfIdentity(w);
  }

  lemma NoCrInWordThenBlanks(a: string, u: string)
    requires IsWord(a)
    requires forall i :: 0 <= i < |u| ==> u[i] != '\r'
    ensures '\r' !in a + u
    ensures |a + u| > 0 && |u| > 0 ==> (a + u)[|a + u| - 1] == u[|u| - 1]
  {
    assert forall i :: 0 <= i < |a + u| ==> (a + u)[i] != '\r' by {
      forall i | 0 <= i < |a + u| ensures (a + u)[i] != '\r' {
        if i < |a| { assert (a + u)[i] == a[i]; } else { assert (a + u)[i] == u[i - |a|]; }
      }
    }
  }

  lemma NoiseBlanksStep(a: string, u: string, b: string, v: string)
    requires IsWord(a) && IsWord(b)
    requires IsBlankRun(u) && IsBlankRun(v)
    ensures StripLineEndBlanks(a + (u + ("\n" + (b + (v + "\n"))))) == a + "\n" + b + "\n"
  {
    BlanksBeforeLf(a, u, b + (v + "\n"));
    assert v + "\n" == v + ("\n" + "");
    BlanksBeforeLf(b, v, "");
    assert a + ("\n" + (b + ("\n" + ""))) == a + "\n" + b + "\n";
  }

  /** A run of blanks after a word and before a '\n' is deleted; the word is kept. */
  lemma BlanksBeforeLf(x: string, u: string, y: string)
    requires IsWord(x) && IsBlankRun(u)
    ensures StripLineEndBlanks(x + (u + ("\n" + y))) == x + ("\n" + StripLineEndBlanks(y))
  {
    var z := u + ("\n" + y);
    NoBlankInWord(x);
    StripLineEndBlanksIdentity(x);
    StripLineEndBlanksConcat(x, z);
    BlankRunAt(z, |u|);
    assert z[|u|..] == "\n" + y;
    StripLineEndBlanksHead("\n" + y);
    assert ("\n" + y)[1..] == y;
  }

  lemma NoBlankInWord(s: string)
    requires IsWord(s)
    ensures NoBlankBeforeLineEnd(s)
  {
  }

  /** The unit-test pair: "foo \r\nbar  \n" and "foo\nbar" normalise alike. */
  lemma NormalizeTextTestPair()
    ensures NormalizeText("foo \r\nbar  \n") == NormalizeText("foo\nbar") == "foo\nbar"
  {
    assert "foo" + " " + "\r\n" + "bar" + "  " + "\n" == "foo \r\nbar  \n";
    assert "foo" + "\n" + "bar" == "foo\nbar";
    NormalizeTextIgnoresLineEndNoise("foo", " ", "bar", "  ");
  }

  // ------------------------------------------------------------ the tree

  /** A parsed document: JSON-like values with objects as ordered key/value lists. */
  datatype Node =
    | Null
    | Bool(b: bool)
    | Num(n: int)
    | Str(s: string)
    | Arr(elems: seq<Node>)
    | Obj(fields: seq<(string, Node)>)

  /** `value[k]`: the value stored under `k` (the first one, should a key repeat). */
  function ValueOf<V>(fs: seq<(string, V)>, k: string): V
    requires k in KeysOf(fs)
  {
    fs[FirstIndex(KeysOf(fs), k)].1
  }

  function HexDigit(d: int): char
    requires 0 <= d < 16
  {
    if d < 10 then ('0' as int + d) as char else ('a' as int + d - 10) as char
  }

  /** The escape `JSON.stringify` writes for one character of a string. */
  function EscapeChar(c: char): string
  {
    if c == '"' then "\\\""
    else if c == '\\' then "\\\\"
    else if c == '\n' then "\\n"
    else if c == '\r' then "\\r"
    else if c == '\t' then "\\t"
    else if c == '\U{8}' then "\\b"
    else if c == '\U{C}' then "\\f"
    else if (c as int) < 0x20 then "\\u00" + [HexDigit(c as int / 16), HexDigit(c as int % 16)]
    else [c]
  }

  function JsonString(s: string): string
  {
    "\"" + Concat(MapSeq(s, EscapeChar)) + "\""
  }

  function Concat(ss: seq<string>): string
  {
    if |ss| == 0 then "" else ss[0] + Concat(ss[1..])
  }

  /** `JSON.stringify` of a tree, without whitespace. */
  function Json(n: Node): string
    decreases n
  {
    match n
    case Null => "null"
    case Bool(b) => if b then "true" else "false"
    case Num(i) => IntToString(i)
    case Str(s) => JsonString(s)
    case Arr(es) => "[" + Join(seq(|es|, i requires 0 <= i < |es| => Json(es[i])), ",") + "]"
    case Obj(fs) =>
      "{" + Join(seq(|fs|, i requires 0 <= i < |fs| => JsonString(fs[i].0) + ":" + Json(fs[i].1)), ",") + "}"
  }

  /** The array sort key: a string element itself, anything else its JSON text. */
  function SortKey(n: Node): string
  {
    if n.Str? then n.s else Json(n)
  }

  // ------------------------------------------------------------ sortDeep

  /**
   * The canonical form: arrays are canonicalised element-wise and then sorted
   * stably by `SortKey`; objects list their keys in ascending order, each with
   * the canonical form of its value; scalars are unchanged.
   */
  function Canon(n: Node): Node
    decreases n
  {
    match n
    case Arr(es) => Arr(SortBy(seq(|es|, i requires 0 <= i < |es| => Canon(es[i])), SortKey))
    case Obj(fs) =>
      var keys := KeysOf(fs);
      var ks := SortBy(keys, Id);
      SortByMembers(keys, Id);
      Obj(seq(|ks|, i requires 0 <= i < |ks| => (ks[i], Canon(fs[FirstIndex(keys, ks[i])].1))))
    case _ => n
  }

  /**
   * `sortDeep`: maps itself over an array and sorts the result in place, or
   * sorts an object's keys in place and fills a new object key by key.
   */
  method SortDeep(value: Node) returns (r: Node)
    ensures r == Canon(value)
    decreases value, 1
  {
    match value {
      case Arr(es) =>
        var mapped := new Node[|es|];
        for i := 0 to |es|
          invariant forall k :: 0 <= k < i ==> mapped[k] == Canon(es[k])
        {
          var c := SortDeep(es[i]);
          mapped[i] := c;
        }
        assert mapped[..] == seq(|es|, i requires 0 <= i < |es| => Canon(es[i]));
        InsertionSortBy(mapped, SortKey);
        r := Arr(mapped[..]);
      case Obj(fs) =>
        var keys := new string[|fs|](i requires 0 <= i < |fs| => fs[i].0);
        assert keys[..] == KeysOf(fs);
        InsertionSortBy(keys, Id);
        var ks := keys[..];
        SortByMembers(KeysOf(fs), Id);
        var out := CanonFields(fs, ks);
        r := Obj(out);
      case _ =>
        r := value;
    }
  }

  /** The loop of `sortDeep` that fills the new object, one sorted key at a time. */
  method CanonFields(fs: seq<(string, Node)>, ks: seq<string>) returns (out: seq<(string, Node)>)
    requires forall k :: k in ks ==> k in KeysOf(fs)
    ensures |out| == |ks|
    ensures forall k :: 0 <= k < |ks| ==> out[k] == (ks[k], Canon(fs[FirstIndex(KeysOf(fs), ks[k])].1))
    decreases Obj(fs), 0
  {
    out := [];
    for i := 0 to |ks|
      invariant |out| == i
      invariant forall k :: 0 <= k < i ==> out[k] == (ks[k], Canon(fs[FirstIndex(KeysOf(fs), ks[k])].1))
    {
      var j := FirstIndex(KeysOf(fs), ks[i]);
      var c := SortDeep(fs[j].1);
      out := out + [(ks[i], c)];
    }
  }

  /** Scalars, null included, come back unchanged. */
  lemma CanonScalar(n: Node)
    requires !n.Arr? && !n.Obj?
    ensures Canon(n) == n
  {
  }

  /**
   * An object comes back with the same keys in ascending order, each holding
   * the canonical form of the input's value; distinct keys stay distinct.
   */
  lemma CanonObject(fs: seq<(string, Node)>)
    ensures Canon(Obj(fs)).Obj?
    ensures var gs := Canon(Obj(fs)).fields;
      && KeysOf(gs) == SortBy(KeysOf(fs), Id)
      && SortedBy(KeysOf(gs), Id)
      && multiset(KeysOf(gs)) == multiset(KeysOf(fs))
      && (forall i :: 0 <= i < |gs| ==> gs[i].0 in KeysOf(fs) && gs[i].1 == Canon(ValueOf(fs, gs[i].0)))
      && (Distinct(KeysOf(fs)) ==> Distinct(KeysOf(gs)))
  {
    var keys := KeysOf(fs);
    var gs := Canon(Obj(fs)).fields;
    SortByCorrect(keys, Id);
    SortByMembers(keys, Id);
    assert KeysOf(gs) == SortBy(keys, Id);
    if Distinct(keys) {
      DistinctPermutation(keys, KeysOf(gs));
    }
  }

  /** An array comes back as a permutation of its canonicalised elements, ordered by `SortKey`. */
  lemma CanonArray(es: seq<Node>)
    ensures Canon(Arr(es)).Arr?
    ensures multiset(Canon(Arr(es)).elems) == multiset(MapSeq(es, Canon))
    ensures SortedBy(Canon(Arr(es)).elems, SortKey)
  {
    var mapped := seq(|es|, i requires 0 <= i < |es| => Canon(es[i]));
    assert mapped == MapSeq(es, Canon);
    SortByCorrect(mapped, SortKey);
  }

  /** Objects holding the same key/value pairs in any order have one canonical form. */
  lemma CanonReorder(fs: seq<(string, Node)>, gs: seq<(string, Node)>)
    requires Distinct(KeysOf(fs)) && Distinct(KeysOf(gs))
    requires forall p :: p in fs <==> p in gs
    ensures Canon(Obj(fs)) == Canon(Obj(gs))
  {
    CanonObject(fs);
    CanonObject(gs);
    var cf, cg := Canon(Obj(fs)).fields, Canon(Obj(gs)).fields;
    SameKeys(fs, gs);
    SortByMembers(KeysOf(fs), Id);
    SortByMembers(KeysOf(gs), Id);
    StrictlySortedUnique(KeysOf(cf), KeysOf(cg));
    forall i | 0 <= i < |cf| ensures cf[i] == cg[i] {
      assert cf[i].0 == KeysOf(cf)[i] == KeysOf(cg)[i] == cg[i].0;
      SameValue(fs, gs, cf[i].0);
    }
  }

  lemma SameKeys(fs: seq<(string, Node)>, gs: seq<(string, Node)>)
    requires forall p :: p in fs <==> p in gs
    ensures forall k :: k in KeysOf(fs) <==> k in KeysOf(gs)
  {
    forall k ensures k in KeysOf(fs) ==> k in KeysOf(gs) {
      if k in KeysOf(fs) {
        var i :| 0 <= i < |fs| && KeysOf(fs)[i] == k;
        assert fs[i] in gs;
        var m :| 0 <= m < |gs| && gs[m] == fs[i];
        assert KeysOf(gs)[m] == k;
      }
    }
    forall k ensures k in KeysOf(gs) ==> k in KeysOf(fs) {
      if k in KeysOf(gs) {
        var i :| 0 <= i < |gs| && KeysOf(gs)[i] == k;
        assert gs[i] in fs;
        var m :| 0 <= m < |fs| && fs[m] == gs[i];
        assert KeysOf(fs)[m] == k;
      }
    }
  }

  lemma SameValue(fs: seq<(string, Node)>, gs: seq<(string, Node)>, k: string)
    requires Distinct(KeysOf(gs))
    requires forall p :: p in fs ==> p in gs
    requires k in KeysOf(fs) && k in KeysOf(gs)
    ensures ValueOf(fs, k) == ValueOf(gs, k)
  {
    var i := FirstIndex(KeysOf(fs), k);
    assert fs[i] in gs;
    var m :| 0 <= m < |gs| && gs[m] == fs[i];
    var j := FirstIndex(KeysOf(gs), k);
    assert KeysOf(gs)[m] == k == KeysOf(gs)[j];
  }

  /** The unit test's documents `<root><b>2</b><a>1</a></root>` and `<root><a>1</a><b>2</b></root>`. */
  lemma CanonTestDocuments()
    ensures Canon(Obj([("root", Obj([("b", Num(2)), ("a", Num(1))]))]))
         == Canon(Obj([("root", Obj([("a", Num(1)), ("b", Num(2))]))]))
  {
    var x := [("b", Num(2)), ("a", Num(1))];
    var y := [("a", Num(1)), ("b", Num(2))];
    assert KeysOf(x) == ["b", "a"] && KeysOf(y) == ["a", "b"];
    CanonReorder(x, y);
    assert KeysOf([("root", Obj(x))]) == ["root"] == KeysOf([("root", Obj(y))]);
  }

  lemma {:induction false} SortBySorted<T>(s: seq<T>, key: T -> string)
    requires SortedBy(s, key)
    ensures SortBy(s, key) == s
  {
    if |s| > 0 {
      var p := s[..|s| - 1];
      assert SortedBy(p, key);
      SortBySorted(p, key);
      if |p| > 0 { assert LexLe(key(s[|s| - 2]), key(s[|s| - 1])); }
      assert s == p + [s[|s| - 1]];
    }
  }

  /** The canonical form is a fixed point of canonicalisation. */
  lemma {:induction false} CanonIdempotent(n: Node)
    ensures Canon(Canon(n)) == Canon(n)
    decreases n, 2
  {
    match n
    case Arr(es) => CanonIdempotentArray(es);
    case Obj(fs) => CanonIdempotentObject(fs);
    case _ =>
  }

  lemma {:induction false} CanonIdempotentArray(es: seq<Node>)
    ensures Canon(Canon(Arr(es))) == Canon(Arr(es))
    decreases Arr(es), 1
  {
    var c := Canon(Arr(es)).elems;
    CanonArray(es);
    var m := MapSeq(es, Canon);
    forall x | x in c ensures Canon(x) == x {
      assert x in multiset(m);
      var j :| 0 <= j < |m| && m[j] == x;
      CanonIdempotent(es[j]);
    }
    var again := seq(|c|, i requires 0 <= i < |c| => Canon(c[i]));
    assert again == c by {
      forall i | 0 <= i < |c| ensures again[i] == c[i] {
        assert c[i] in c;
      }
    }
    SortBySorted(c, SortKey);
    assert Canon(Arr(c)) == Arr(SortBy(again, SortKey));
  }

  lemma {:induction false} CanonIdempotentObject(fs: seq<(string, Node)>)
    ensures Canon(Canon(Obj(fs))) == Canon(Obj(fs))
    decreases Obj(fs), 1
  {
    var gs := Canon(Obj(fs)).fields;
    var again := Canon(Obj(gs)).fields;
    CanonObjectLength(gs);
    forall i | 0 <= i < |gs| ensures again[i] == gs[i] {
      CanonIdempotentField(fs, i);
    }
    assert again == gs;
  }

  /** The canonical form of an object has one field per input field. */
  lemma CanonObjectLength(fs: seq<(string, Node)>)
    ensures |Canon(Obj(fs)).fields| == |fs|
  {
  }

  /** One field of a canonical object is its own canonical form. */
  lemma {:induction false} CanonIdempotentField(fs: seq<(string, Node)>, i: nat)
    requires i < |Canon(Obj(fs)).fields|
    ensures i < |Canon(Obj(Canon(Obj(fs)).fields)).fields|
    ensures Canon(Obj(Canon(Obj(fs)).fields)).fields[i] == Canon(Obj(fs)).fields[i]
    decreases Obj(fs), 0
  {
    var gs := Canon(Obj(fs)).fields;
    CanonObject(fs);
    var kg := KeysOf(gs);
    SortBySorted(kg, Id);
    CanonObject(gs);
    var again := Canon(Obj(gs)).fields;
    var k := kg[i];
    assert again[i].0 == k == gs[i].0;
    var m := FirstIndex(kg, k);
    assert gs[m].1 == Canon(ValueOf(fs, k)) && gs[i].1 == Canon(ValueOf(fs, k));
    CanonIdempotent(fs[FirstIndex(KeysOf(fs), k)].1);
  }

  // ------------------------------------------------------------ canonicalizeXml

  /**
   * `canonicalizeXml`: parse, `sortDeep`, build. A parse failure (the parser
   * throwing) propagates as `None`; the metadata type does not influence the result.
   */
  method CanonicalizeXml(xml: string, metadataType: string,
                         parse: string -> Option<Node>, build: Node -> string)
    returns (r: Option<string>)
    ensures parse(xml).None? ==> r.None?
    ensures parse(xml).Some? ==> r == Some(build(Canon(parse(xml).value)))
  {
    var obj := parse(xml);
    if obj.None? {
      return None;
    }
    var sorted := SortDeep(obj.value);
    r := Some(build(sorted));
  }
}
