/**
 * src/metadataNormalize.ts: the older two-step `normalizeText`, which turns
 * CRLF into LF and deletes spaces and tabs before each line end, but keeps
 * trailing newlines.
 */
module LegacyNormalize {
  import opened Strings
  import opened TextRewrite
  import MetadataNormalize

  function NormalizeText(text: string): (r: string)
    ensures NoBlankBeforeLineEnd(r)
    ensures |r| <= |text|
    ensures Count(r, '\n') == Count(text, '\n')
    ensures NoLoneCr(text) ==> '\r' !in r
  {
    var crlf := ReplaceCrlf(text);
    ReplaceCrlfCounts(text);
    StripLineEndBlanksSound(crlf);
    StripLineEndBlanksCounts(crlf, '\n');
    MetadataNormalize.NoCrChain(text);
    StripLineEndBlanks(crlf)
  }

  /** Idempotent on text whose every '\r' starts a CRLF. */
  lemma NormalizeTextIdempotent(text: string)
    requires NoLoneCr(text)
    ensures NormalizeText(NormalizeText(text)) == NormalizeText(text)
  {
    var n := NormalizeText(text);
    ReplaceCrlfIdentity(n);
    StripLineEndBlanksIdentity(n);
  }

  /** Text without '\r' and without blanks before line ends is returned unchanged. */
  lemma NormalizeTextIdentity(text: string)
    requires '\r' !in text && NoBlankBeforeLineEnd(text)
    ensures NormalizeText(text) == text
  {
    ReplaceCrlfIdentity(text);
    StripLineEndBlanksIdentity(text);
  }

  /** The current normaliser is this one followed by removal of trailing newlines. */
  lemma CurrentExtendsLegacy(text: string)
    ensures MetadataNormalize.NormalizeText(text) == StripTrailingNewlines(NormalizeText(text))
  {
  }
}
