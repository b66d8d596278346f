/**
 * multi-org-comparator/src/sfdx.ts: the value-level parts of the CLI
 * wrapper. `getOrgAliases` turns the parsed result of `sf org list --json`
 * into a duplicate-free alias list; `runSfdx` splits a command into tokens,
 * drops a leading `sf` and quotes the tokens for the bundled `run.js`.
 */
module Sfdx {
  import opened Wrappers
  import opened Strings
  import opened Seqs

  // ------------------------------------------------------------ org list

  /** A JavaScript property value, as far as the alias rule looks at it. */
  datatype JsValue = Missing | Text(s: string) | Other(truthy: bool)

  /** An entry of `nonScratchOrgs` or `scratchOrgs`. */
  datatype OrgEntry = OrgEntry(alias: JsValue, username: JsValue)

  /** `result.result?.nonScratchOrgs` / `scratchOrgs`: an array of entries, or anything else. */
  datatype OrgListField = NotArray | OrgArray(orgs: seq<OrgEntry>)

  /** What `runSfdx` resolves to: raw text when stdout was not JSON, else the parsed lists. */
  datatype OrgListResult = TextResult(text: string) | JsonResult(nonScratchOrgs: OrgListField, scratchOrgs: OrgListField)

  predicate Truthy(v: JsValue)
  {
    match v
    case Missing => false
    case Text(s) => s != ""
    case Other(b) => b
  }

  /** `o.alias || o.username`. */
  function NameOf(o: OrgEntry): JsValue
  {
    if Truthy(o.alias) then o.alias else o.username
  }

  /** `typeof v === 'string' && v.length > 0`. */
  predicate IsName(v: JsValue)
  {
    v.Text? && v.s != ""
  }

  function TextOf(v: JsValue): string
  {
    if v.Text? then v.s else ""
  }

  /** `Array.isArray(f) ? f : []`. */
  function OrgsOf(f: OrgListField): seq<OrgEntry>
  {
    if f.OrgArray? then f.orgs else []
  }

  /** The names the entries contribute, in order, before deduplication. */
  function NamesOf(orgs: seq<OrgEntry>): seq<string>
  {
    MapSeq(Filter(MapSeq(orgs, NameOf), IsName), TextOf)
  }

  /** `[...nonScratch, ...scratch]`, mapped and filtered. */
  function CandidateNames(r: OrgListResult): seq<string>
    requires r.JsonResult?
  {
    NamesOf(OrgsOf(r.nonScratchOrgs) + OrgsOf(r.scratchOrgs))
  }

  /** The alias list `getOrgAliases` returns for a CLI result. */
  function Aliases(r: OrgListResult): seq<string>
  {
    if r.TextResult? then [] else Dedup(CandidateNames(r))
  }

  /** The post-processing of `getOrgAliases`, with its `seen` set and `dedup` array. */
  method GetOrgAliases(result: OrgListResult) returns (aliases: seq<string>)
    ensures aliases == Aliases(result)
  {
    if result.TextResult? {
      return [];
    }
    var names := CandidateNames(result);
    var seen: set<string> := {};
    var dedup: seq<string> := [];
    for i := 0 to |names|
      invariant dedup == Dedup(names[..i])
      invariant forall x :: x in seen <==> x in dedup
    {
      var n := names[i];
      assert names[..i + 1][..i] == names[..i];
      if n !in seen {
        seen := seen + {n};
        dedup := dedup + [n];
      }
    }
    assert names[..|names|] == names;
    aliases := dedup;
  }

  lemma NamesOfConcat(a: seq<OrgEntry>, b: seq<OrgEntry>)
    ensures NamesOf(a + b) == NamesOf(a) + NamesOf(b)
  {
    assert MapSeq(a + b, NameOf) == MapSeq(a, NameOf) + MapSeq(b, NameOf);
    FilterConcat(MapSeq(a, NameOf), MapSeq(b, NameOf), IsName);
    var fa, fb := Filter(MapSeq(a, NameOf), IsName), Filter(MapSeq(b, NameOf), IsName);
    assert MapSeq(fa + fb, TextOf) == MapSeq(fa, TextOf) + MapSeq(fb, TextOf);
  }

  /** A name is a candidate exactly when some entry contributes it. */
  lemma NamesOfMembers(orgs: seq<OrgEntry>, x: string)
    ensures x in NamesOf(orgs) <==> x != "" && exists o :: o in orgs && NameOf(o) == Text(x)
  {
    var vs := MapSeq(orgs, NameOf);
    FilterMembers(vs, IsName);
    var f := Filter(vs, IsName);
    if x in NamesOf(orgs) {
      var k :| 0 <= k < |f| && TextOf(f[k]) == x;
      assert f[k] in vs && IsName(f[k]);
      var j :| 0 <= j < |vs| && vs[j] == f[k];
      assert orgs[j] in orgs && NameOf(orgs[j]) == Text(x);
    }
    if x != "" && exists o :: o in orgs && NameOf(o) == Text(x) {
      var o :| o in orgs && NameOf(o) == Text(x);
      var j :| 0 <= j < |orgs| && orgs[j] == o;
      assert vs[j] == Text(x);
      assert Text(x) in f;
      var k :| 0 <= k < |f| && f[k] == Text(x);
      assert NamesOf(orgs)[k] == x;
    }
  }

  /**
   * For a parsed result the aliases are duplicate-free, non-empty, keep the
   * order of first occurrence, and are exactly the names some entry of
   * either list contributes.
   */
  lemma AliasesSpec(r: OrgListResult)
    requires r.JsonResult?
    ensures var a, names := Aliases(r), CandidateNames(r);
      && Distinct(a)
      && (forall x :: x in a <==> x in names)
      && (forall i, j :: 0 <= i < j < |a| ==> FirstIndex(names, a[i]) < FirstIndex(names, a[j]))
      && (forall x :: x in a <==> x != "" && exists o :: o in OrgsOf(r.nonScratchOrgs) + OrgsOf(r.scratchOrgs) && NameOf(o) == Text(x))
  {
    DedupCorrect(CandidateNames(r));
    forall x ensures x in Aliases(r) <==> x != "" && exists o :: o in OrgsOf(r.nonScratchOrgs) + OrgsOf(r.scratchOrgs) && NameOf(o) == Text(x) {
      NamesOfMembers(OrgsOf(r.nonScratchOrgs) + OrgsOf(r.scratchOrgs), x);
    }
  }

  /**
   * An entry whose alias is a non-empty string contributes that alias; an
   * entry whose alias is falsy contributes a non-empty string username.
   */
  lemma EntryContributes(r: OrgListResult, o: OrgEntry)
    requires r.JsonResult? && o in OrgsOf(r.nonScratchOrgs) + OrgsOf(r.scratchOrgs)
    ensures o.alias.Text? && o.alias.s != "" ==> o.alias.s in Aliases(r)
    ensures !Truthy(o.alias) && o.username.Text? && o.username.s != "" ==> o.username.s in Aliases(r)
  {
    AliasesSpec(r);
  }

  /** A string result (stdout that was not JSON) gives no aliases, whatever its text. */
  lemma TextResultHasNoAliases(text: string)
    ensures Aliases(TextResult(text)) == []
  {
  }

  /** The aliases of the non-scratch orgs alone come first, in the same order. */
  lemma NonScratchFirst(nonScratch: OrgListField, scratch: OrgListField)
    ensures var first := Aliases(JsonResult(nonScratch, NotArray));
      |first| <= |Aliases(JsonResult(nonScratch, scratch))|
      && Aliases(JsonResult(nonScratch, scratch))[..|first|] == first
  {
    var a, b := OrgsOf(nonScratch), OrgsOf(scratch);
    assert a + [] == a;
    NamesOfConcat(a, b);
    DedupPrefix(NamesOf(a), NamesOf(b));
  }

  // ----------------------------------------------------- bundled command

  predicate NonEmpty(p: string)
  {
    |p| > 0
  }

  /** `command.split(' ').filter(p => p.length > 0)`. */
  function Tokens(command: string): seq<string>
  {
    Filter(Split(command, ' '), NonEmpty)
  }

  /** Every token is non-empty and free of spaces. */
  lemma TokensSpec(command: string)
    ensures forall i :: 0 <= i < |Tokens(command)| ==> Tokens(command)[i] != "" && ' ' !in Tokens(command)[i]
  {
    JoinSplit(command, ' ');
    FilterMembers(Split(command, ' '), NonEmpty);
    forall i | 0 <= i < |Tokens(command)| ensures Tokens(command)[i] != "" && ' ' !in Tokens(command)[i] {
      var t := Tokens(command)[i];
      assert t in Tokens(command);
      var k :| 0 <= k < |Split(command, ' ')| && Split(command, ' ')[k] == t;
    }
  }

  /** Tokens joined by single spaces split back into the same tokens. */
  lemma TokensOfJoin(ts: seq<string>)
    requires |ts| > 0 && forall i :: 0 <= i < |ts| ==> ts[i] != "" && ' ' !in ts[i]
    ensures Tokens(Join(ts, " ")) == ts
  {
    assert " " == [' '];
    SplitJoin(ts, ' ');
    FilterAll(ts, NonEmpty);
  }

  /**
   * The arguments handed to `run.js`: the tokens, less a leading `sf`
   * compared after `toLowerCase`. With no token at all `parts[0]` is
   * undefined, the call throws, and `runSfdx` falls back to the command as
   * given: `None`.
   */
  function Args(command: string): Option<seq<string>>
  {
    var parts := Tokens(command);
    if |parts| == 0 then None
    else if ToLower(parts[0]) == "sf" then Some(parts[1..])
    else Some(parts)
  }

  /** `escapeArg`: quote a token holding a space or a double quote, escaping its quotes. */
  function EscapeArg(p: string): string
  {
    if ' ' in p || '"' in p then "\"" + EscapeQuotes(p) + "\"" else p
  }

  /** `p.replace(/"/g, '\\"')`. */
  function EscapeQuotes(p: string): (r: string)
    ensures |r| == |p| + Count(p, '"')
  {
    if |p| == 0 then ""
    else if p[0] == '"' then "\\\"" + EscapeQuotes(p[1..])
    else [p[0]] + EscapeQuotes(p[1..])
  }

  /** Reads `\"` back as `"`, left to right. */
  function UnescapeQuotes(s: string): string
  {
    if |s| == 0 then ""
    else if |s| >= 2 && s[0] == '\\' && s[1] == '"' then "\"" + UnescapeQuotes(s[2..])
    else [s[0]] + UnescapeQuotes(s[1..])
  }

  lemma EscapeQuotesHead(p: string)
    requires |p| > 0
    ensures EscapeQuotes(p)[0] != '"'
  {
  }

  /** Escaping loses nothing: reading every `\"` back as `"` restores the token. */
  lemma {:induction false} EscapeQuotesRoundTrip(p: string)
    ensures UnescapeQuotes(EscapeQuotes(p)) == p
  {
    if |p| > 0 {
      EscapeQuotesRoundTrip(p[1..]);
      var e := EscapeQuotes(p[1..]);
      if p[0] == '"' {
        assert EscapeQuotes(p) == "\\\"" + e;
        assert ("\\\"" + e)[2..] == e;
      } else {
        assert EscapeQuotes(p) == [p[0]] + e;
        assert ([p[0]] + e)[1..] == e;
        if |e| > 0 {
          EscapeQuotesHead(p[1..]);
        }
      }
      assert p == [p[0]] + p[1..];
    }
  }

  /** Every double quote of an escaped token is preceded by a backslash. */
  lemma {:induction false} EscapedQuotesArePreceded(p: string)
    ensures forall i :: 0 <= i < |EscapeQuotes(p)| && EscapeQuotes(p)[i] == '"' ==> i > 0 && EscapeQuotes(p)[i - 1] == '\\'
  {
    if |p| > 0 {
      EscapedQuotesArePreceded(p[1..]);
      var e := EscapeQuotes(p[1..]);
      var pre := if p[0] == '"' then "\\\"" else [p[0]];
      assert EscapeQuotes(p) == pre + e;
      forall i | 0 <= i < |pre + e| && (pre + e)[i] == '"' ensures i > 0 && (pre + e)[i - 1] == '\\' {
        if i < |pre| {
          assert p[0] == '"' && i == 1;
          assert (pre + e)[0] == '\\';
        } else {
          var j := i - |pre|;
          assert (pre + e)[i] == e[j];
          if j == 0 {
            assert false;
          } else {
            assert (pre + e)[i - 1] == e[j - 1];
          }
        }
      }
    }
  }

  /**
   * A token is passed unchanged exactly when it holds neither a space nor a
   * double quote; otherwise it is wrapped in quotes and unwrapping and
   * unescaping it gives the token back.
   */
  lemma EscapeArgSpec(p: string)
    ensures EscapeArg(p) == p <==> ' ' !in p && '"' !in p
    ensures (' ' in p || '"' in p) ==> var e := EscapeArg(p);
      |e| >= 2 && e[0] == '"' && e[|e| - 1] == '"' && UnescapeQuotes(e[1..|e| - 1]) == p
  {
    if ' ' in p || '"' in p {
      var e := EscapeArg(p);
      assert |e| == |p| + Count(p, '"') + 2;
      assert e[1..|e| - 1] == EscapeQuotes(p);
      EscapeQuotesRoundTrip(p);
    }
  }

  /** The command line for the bundled runner: `"node" "run.js" arg arg …`. */
  function PrimaryCommand(nodeCmd: string, runJs: string, parts: seq<string>): string
  {
    "\"" + nodeCmd + "\" \"" + runJs + "\" " + Join(MapSeq(parts, EscapeArg), " ")
  }

  /**
   * The bundled-runner branch of `runSfdx`: split, filter, `shift` a leading
   * `sf`, escape and join. `None` stands for the exception that sends
   * `runSfdx` back to running `command` itself.
   */
  method BundledCommand(nodeCmd: string, runJs: string, command: string) returns (cmd: Option<string>)
    ensures Args(command).None? <==> cmd.None?
    ensures Args(command).Some? ==> cmd == Some(PrimaryCommand(nodeCmd, runJs, Args(command).value))
  {
    var parts := Tokens(command);
    if |parts| == 0 {
      return None;
    }
    if ToLower(parts[0]) == "sf" {
      parts := parts[1..];
    }
    cmd := Some(PrimaryCommand(nodeCmd, runJs, parts));
  }

  /** A leading `sf`, in any case, is dropped; any other first token is kept. */
  lemma ArgsOfJoin(first: string, rest: seq<string>)
    requires first != "" && ' ' !in first
    requires forall i :: 0 <= i < |rest| ==> rest[i] != "" && ' ' !in rest[i]
    ensures Args(Join([first] + rest, " ")) == if ToLower(first) == "sf" then Some(rest) else Some([first] + rest)
  {
    var ts := [first] + rest;
    forall i | 0 <= i < |ts| ensures ts[i] != "" && ' ' !in ts[i] {
      if i > 0 { assert ts[i] == rest[i - 1]; }
    }
    TokensOfJoin(ts);
    assert ts[1..] == rest;
  }
}
