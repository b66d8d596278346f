/**
 * The three regular-expression rewrites that the two `normalizeText`
 * functions chain together, each written out as a recursive function with
 * the matching semantics of JavaScript's global `String.prototype.replace`:
 *
 *   /\r\n/g     -> '\n'   ReplaceCrlf
 *   /[ \t]+$/gm -> ''     StripLineEndBlanks (multiline `$` matches at the end
 *                         of input and before '\n', '\r', U+2028 and U+2029)
 *   /\n+$/g     -> ''     StripTrailingNewlines (`$` only at the end of input)
 */
module TextRewrite {
  import opened Strings

  predicate IsBlank(c: char)
  {
    c == ' ' || c == '\t'
  }

  /** The characters before which a JavaScript multiline `$` matches. */
  predicate IsLineTerminator(c: char)
  {
    c == '\n' || c == '\r' || c == '\U{2028}' || c == '\U{2029}'
  }

  /** Every carriage return starts a CRLF pair. */
  predicate NoLoneCr(s: string)
  {
    forall i :: 0 <= i < |s| && s[i] == '\r' ==> i + 1 < |s| && s[i + 1] == '\n'
  }

  /** No space or tab stands before a line terminator or at the end of the text. */
  predicate NoBlankBeforeLineEnd(s: string)
  {
    forall i :: 0 <= i < |s| && IsBlank(s[i]) ==> i + 1 < |s| && !IsLineTerminator(s[i + 1])
  }

  // ---------------------------------------------------------------- /\r\n/g

  function ReplaceCrlf(s: string): string
  {
    if |s| == 0 then ""
    else if |s| >= 2 && s[0] == '\r' && s[1] == '\n' then "\n" + ReplaceCrlf(s[2..])
    else [s[0]] + ReplaceCrlf(s[1..])
  }

  lemma {:induction false} ReplaceCrlfRemovesCr(s: string)
    requires NoLoneCr(s)
    ensures '\r' !in ReplaceCrlf(s)
  {
    if |s| >= 2 && s[0] == '\r' && s[1] == '\n' {
      assert NoLoneCr(s[2..]) by {
        forall i | 0 <= i < |s[2..]| && s[2..][i] == '\r'
          ensures i + 1 < |s[2..]| && s[2..][i + 1] == '\n'
        {
          assert s[i + 2] == '\r';
        }
      }
      ReplaceCrlfRemovesCr(s[2..]);
    } else if |s| > 0 {
      assert s[0] != '\r';
      assert NoLoneCr(s[1..]) by {
        forall i | 0 <= i < |s[1..]| && s[1..][i] == '\r'
          ensures i + 1 < |s[1..]| && s[1..][i + 1] == '\n'
        {
          assert s[i + 1] == '\r';
        }
      }
      ReplaceCrlfRemovesCr(s[1..]);
    }
  }

  lemma {:induction false} ReplaceCrlfIdentity(s: string)
    requires '\r' !in s
    ensures ReplaceCrlf(s) == s
  {
    if |s| > 0 {
      assert s[0] != '\r';
      assert '\r' !in s[1..] by { assert forall i :: 0 <= i < |s[1..]| ==> s[1..][i] == s[i + 1]; }
      ReplaceCrlfIdentity(s[1..]);
      assert s == [s[0]] + s[1..];
    }
  }

  /** The rewrite deletes one character per CRLF pair and keeps every '\n'. */
  lemma {:induction false} ReplaceCrlfCounts(s: string)
    ensures |ReplaceCrlf(s)| <= |s|
    ensures Count(ReplaceCrlf(s), '\n') == Count(s, '\n')
  {
    if |s| >= 2 && s[0] == '\r' && s[1] == '\n' {
      ReplaceCrlfCounts(s[2..]);
      CountConcat("\n", ReplaceCrlf(s[2..]), '\n');
      assert s[1..][1..] == s[2..];
    } else if |s| > 0 {
      ReplaceCrlfCounts(s[1..]);
      CountConcat([s[0]], ReplaceCrlf(s[1..]), '\n');
    }
  }

  /** The rewrite distributes over a split that does not cut a CRLF pair. */
  lemma {:induction false} ReplaceCrlfConcat(a: string, b: string)
    requires |a| == 0 || a[|a| - 1] != '\r'
    ensures ReplaceCrlf(a + b) == ReplaceCrlf(a) + ReplaceCrlf(b)
  {
    if |a| == 0 {
      assert a + b == b;
    } else if |a| >= 2 && a[0] == '\r' && a[1] == '\n' {
      ReplaceCrlfConcat(a[2..], b);
      ReplaceCrlfPairFirst(a, b);
    } else {
      ReplaceCrlfConcat(a[1..], b);
      ReplaceCrlfOtherFirst(a, b);
    }
  }

  lemma ReplaceCrlfPairFirst(a: string, b: string)
    requires |a| >= 2 && a[0] == '\r' && a[1] == '\n'
    ensures ReplaceCrlf(a + b) == "\n" + ReplaceCrlf(a[2..] + b)
  {
    var ab := a + b;
    assert ab[0] == '\r' && ab[1] == '\n';
    assert ab[2..] == a[2..] + b;
  }

  lemma ReplaceCrlfOtherFirst(a: string, b: string)
    requires |a| > 0 && a[|a| - 1] != '\r'
    requires !(|a| >= 2 && a[0] == '\r' && a[1] == '\n')
    ensures ReplaceCrlf(a + b) == [a[0]] + ReplaceCrlf(a[1..] + b)
  {
    var ab := a + b;
    assert ab[0] == a[0];
    assert !(|ab| >= 2 && ab[0] == '\r' && ab[1] == '\n') by {
      if |a| >= 2 { assert ab[1] == a[1]; }
    }
    assert ab[1..] == a[1..] + b;
  }

  // ------------------------------------------------------------- /[ \t]+$/gm

  /** Length of the run of spaces and tabs at the start of `s`. */
  function BlankRun(s: string): (k: nat)
    ensures k <= |s|
    ensures forall i :: 0 <= i < k ==> IsBlank(s[i])
    ensures k < |s| ==> !IsBlank(s[k])
  {
    if |s| > 0 && IsBlank(s[0]) then 1 + BlankRun(s[1..]) else 0
  }

  /**
   * A maximal run of blanks is deleted exactly when a line terminator or the
   * end of the text follows it; a shorter match is impossible because a
   * blank, not a terminator, would follow it.
   */
  function StripLineEndBlanks(s: string): string
    decreases |s|
  {
    if |s| == 0 then ""
    else if IsBlank(s[0]) then
      var k := BlankRun(s);
      if k == |s| || IsLineTerminator(s[k]) then StripLineEndBlanks(s[k..])
      else s[..k] + StripLineEndBlanks(s[k..])
    else [s[0]] + StripLineEndBlanks(s[1..])
  }

  lemma StripLineEndBlanksHead(s: string)
    requires |s| > 0 && !IsBlank(s[0])
    ensures StripLineEndBlanks(s) == [s[0]] + StripLineEndBlanks(s[1..])
  {
  }

  /** After the rewrite no blank stands before a line end. */
  lemma {:induction false} StripLineEndBlanksSound(s: string)
    ensures NoBlankBeforeLineEnd(StripLineEndBlanks(s))
    decreases |s|
  {
    if |s| == 0 {
    } else if IsBlank(s[0]) {
      var k := BlankRun(s);
      StripLineEndBlanksSound(s[k..]);
      if !(k == |s| || IsLineTerminator(s[k])) {
        var rest := StripLineEndBlanks(s[k..]);
        StripLineEndBlanksHead(s[k..]);
        var r := s[..k] + rest;
        assert rest[0] == s[k];
        forall i | 0 <= i < |r| && IsBlank(r[i])
          ensures i + 1 < |r| && !IsLineTerminator(r[i + 1])
        {
          if i >= k {
            assert r[i] == rest[i - k] && r[i + 1] == rest[i - k + 1];
          } else if i == k - 1 {
            assert r[i + 1] == rest[0];
          } else {
            assert r[i + 1] == s[i + 1];
          }
        }
      }
    } else {
      StripLineEndBlanksSound(s[1..]);
      var rest := StripLineEndBlanks(s[1..]);
      var r := [s[0]] + rest;
      forall i | 0 <= i < |r| && IsBlank(r[i])
        ensures i + 1 < |r| && !IsLineTerminator(r[i + 1])
      {
        assert i > 0;
        assert r[i] == rest[i - 1];
      }
    }
  }

  /** Text that already has no blank before a line end is left unchanged. */
  lemma {:induction false} StripLineEndBlanksIdentity(s: string)
    requires NoBlankBeforeLineEnd(s)
    ensures StripLineEndBlanks(s) == s
    decreases |s|
  {
    if |s| == 0 {
    } else {
      var k := if IsBlank(s[0]) then BlankRun(s) else 1;
      assert NoBlankBeforeLineEnd(s[k..]) by {
        forall i | 0 <= i < |s[k..]| && IsBlank(s[k..][i])
          ensures i + 1 < |s[k..]| && !IsLineTerminator(s[k..][i + 1])
        {
          assert s[k..][i] == s[i + k];
        }
      }
      StripLineEndBlanksIdentity(s[k..]);
      if IsBlank(s[0]) {
        assert IsBlank(s[k - 1]);
        assert s == s[..k] + s[k..];
      } else {
        assert s == [s[0]] + s[1..];
      }
    }
  }

  /** The rewrite only deletes blanks: every other character keeps its count. */
  lemma {:induction false} StripLineEndBlanksCounts(s: string, c: char)
    requires !IsBlank(c)
    ensures |StripLineEndBlanks(s)| <= |s|
    ensures Count(StripLineEndBlanks(s), c) == Count(s, c)
    decreases |s|
  {
    if |s| == 0 {
    } else if IsBlank(s[0]) {
      var k := BlankRun(s);
      StripLineEndBlanksCounts(s[k..], c);
      BlanksHaveNoCount(s[..k], c);
      assert s == s[..k] + s[k..];
      CountConcat(s[..k], s[k..], c);
      if !(k == |s| || IsLineTerminator(s[k])) {
        CountConcat(s[..k], StripLineEndBlanks(s[k..]), c);
      }
    } else {
      StripLineEndBlanksCounts(s[1..], c);
      CountConcat([s[0]], StripLineEndBlanks(s[1..]), c);
    }
  }

  lemma {:induction false} BlanksHaveNoCount(s: string, c: char)
    requires !IsBlank(c)
    requires forall i :: 0 <= i < |s| ==> IsBlank(s[i])
    ensures Count(s, c) == 0
  {
    if |s| > 0 { BlanksHaveNoCount(s[1..], c); }
  }

  lemma StripLineEndBlanksKeepsNoCr(s: string)
    requires '\r' !in s
    ensures '\r' !in StripLineEndBlanks(s)
  {
    StripLineEndBlanksCounts(s, '\r');
    CountAbsent(s, '\r');
    CountAbsent(StripLineEndBlanks(s), '\r');
  }

  /** `BlankRun` is the position of the first non-blank character. */
  lemma BlankRunAt(s: string, k: nat)
    requires k < |s| && !IsBlank(s[k])
    requires forall i :: 0 <= i < k ==> IsBlank(s[i])
    ensures BlankRun(s) == k
  {
  }

  /** The rewrite distributes over a split made right after a non-blank character. */
  lemma {:induction false} StripLineEndBlanksConcat(a: string, b: string)
    requires |a| == 0 || !IsBlank(a[|a| - 1])
    ensures StripLineEndBlanks(a + b) == StripLineEndBlanks(a) + StripLineEndBlanks(b)
    decreases |a|
  {
    if |a| == 0 {
      assert a + b == b;
    } else if IsBlank(a[0]) {
      var k := BlankRun(a);
      StripLineEndBlanksConcat(a[k..], b);
      BlanksFirst(a, b);
    } else {
      StripLineEndBlanksConcat(a[1..], b);
      NonBlankFirst(a, b);
    }
  }

  /** A leading run of blanks ends inside `a`, at the same place in `a + b`. */
  lemma BlanksFirst(a: string, b: string)
    requires |a| > 0 && IsBlank(a[0]) && !IsBlank(a[|a| - 1])
    ensures BlankRun(a) < |a| && BlankRun(a + b) == BlankRun(a)
    ensures (a + b)[BlankRun(a)] == a[BlankRun(a)]
    ensures (a + b)[..BlankRun(a)] == a[..BlankRun(a)]
    ensures (a + b)[BlankRun(a)..] == a[BlankRun(a)..] + b
  {
    var k := BlankRun(a);
    assert k < |a|;
    BlankRunAt(a + b, k);
    assert (a + b)[k..] == a[k..] + b;
    assert (a + b)[..k] == a[..k];
  }

  lemma NonBlankFirst(a: string, b: string)
    requires |a| > 0 && !IsBlank(a[0])
    ensures StripLineEndBlanks(a + b) == [a[0]] + StripLineEndBlanks(a[1..] + b)
  {
    assert (a + b)[0] == a[0];
    assert (a + b)[1..] == a[1..] + b;
  }

  // ---------------------------------------------------------------- /\n+$/g

  function StripTrailingNewlines(s: string): string
  {
    if |s| > 0 && s[|s| - 1] == '\n' then StripTrailingNewlines(s[..|s| - 1]) else s
  }

  /** The result is `s` without its trailing run of '\n'. */
  lemma {:induction false} StripTrailingNewlinesShape(s: string)
    ensures var r := StripTrailingNewlines(s);
      && StartsWith(s, r)
      && (|r| == 0 || r[|r| - 1] != '\n')
      && forall i :: |r| <= i < |s| ==> s[i] == '\n'
  {
    if |s| > 0 && s[|s| - 1] == '\n' {
      StripTrailingNewlinesShape(s[..|s| - 1]);
    }
  }

  lemma StripTrailingNewlinesIdentity(s: string)
    requires |s| == 0 || s[|s| - 1] != '\n'
    ensures StripTrailingNewlines(s) == s
  {
  }

  lemma StripTrailingNewlinesKeeps(s: string)
    ensures NoBlankBeforeLineEnd(s) ==> NoBlankBeforeLineEnd(StripTrailingNewlines(s))
    ensures '\r' !in s ==> '\r' !in StripTrailingNewlines(s)
  {
    StripTrailingNewlinesShape(s);
    var r := StripTrailingNewlines(s);
    assert r == s[..|r|];
    if NoBlankBeforeLineEnd(s) {
      forall i | 0 <= i < |r| && IsBlank(r[i])
        ensures i + 1 < |r| && !IsLineTerminator(r[i + 1])
      {
        assert s[i] == r[i];
      }
    }
  }
}
