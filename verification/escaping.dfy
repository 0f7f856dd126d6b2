/**
 The HTML escaping used for every text cell of the task table.

 The source escapes with five global replace-all passes, ampersand first. This
 module models those passes literally (`EscapeChain`), gives an independent
 per-character reference (`EscapeMap`), proves the two equal, and derives the
 safety facts from the per-character form: no raw markup character survives,
 every ampersand starts one of the five entities, and decoding the five
 entities again (`Unescape`) recovers the original text.
 */
module Escaping {
  import opened Wrappers

  /** The five characters that escaping rewrites. */
  predicate IsSpecial(c: char) {
    c == '&' || c == '<' || c == '>' || c == '"' || c == '\''
  }

  /** Characters that could open a tag or end an attribute value if left raw. */
  predicate IsMarkup(c: char) {
    c == '<' || c == '>' || c == '"' || c == '\''
  }

  predicate NoSpecial(s: string) {
    forall i :: 0 <= i < |s| ==> !IsSpecial(s[i])
  }

  predicate NoMarkup(s: string) {
    forall i :: 0 <= i < |s| ==> !IsMarkup(s[i])
  }

  const Amp := "&amp;"
  const Lt := "&lt;"
  const Gt := "&gt;"
  const Quot := "&quot;"
  const Apos := "&#039;"

  /** `e` occurs in `s` starting at index `i`. */
  predicate HasAt(s: string, i: int, e: string) {
    0 <= i && i + |e| <= |s| && s[i..i + |e|] == e
  }

  /** One of the five entities starts at index `i` of `s`. */
  predicate EntityAt(s: string, i: int) {
    HasAt(s, i, Amp) || HasAt(s, i, Lt) || HasAt(s, i, Gt) || HasAt(s, i, Quot) || HasAt(s, i, Apos)
  }

  predicate AmpersandsAreEntities(s: string) {
    forall i :: 0 <= i < |s| && s[i] == '&' ==> EntityAt(s, i)
  }

  /**
   `s.replace(/c/g, rep)` for a one-character pattern and a replacement
   without `$` patterns: every occurrence of `c` becomes `rep`, left to right,
   and nothing else changes.
   */
  function ReplaceAll(s: string, c: char, rep: string): (r: string)
    ensures |rep| >= 1 ==> |r| >= |s|
  {
    if s == [] then []
    else (if s[0] == c then rep else [s[0]]) + ReplaceAll(s[1..], c, rep)
  }

  /**
   A pass leaves text without its character unchanged, and when the
   replacement does not contain the character, none is left afterwards.
   */
  lemma {:induction false} ReplaceAllAbsent(s: string, c: char, rep: string)
    ensures c !in s ==> ReplaceAll(s, c, rep) == s
    ensures c !in rep ==> c !in ReplaceAll(s, c, rep)
  {
    if s != [] {
      ReplaceAllAbsent(s[1..], c, rep);
      assert c !in s ==> s == [s[0]] + s[1..];
    }
  }

  /** The five passes of `escapeHTML`, in the order the source applies them. */
  function EscapeChain(s: string): (r: string)
    ensures |r| >= |s|
  {
    ReplaceAll(ReplaceAll(ReplaceAll(ReplaceAll(ReplaceAll(s, '&', Amp), '<', Lt), '>', Gt), '"', Quot), '\'', Apos)
  }

  /** The entity a single character is written as. */
  function EscapeChar(c: char): (e: string)
    ensures IsSpecial(c) ==> |e| >= 4 && e[0] == '&' && EntityAt(e, 0)
    ensures !IsSpecial(c) ==> e == [c]
  {
    if c == '&' then Amp
    else if c == '<' then Lt
    else if c == '>' then Gt
    else if c == '"' then Quot
    else if c == '\'' then Apos
    else [c]
  }

  /** Reference escaping: each character replaced by its own escape, independently. */
  function EscapeMap(s: string): (r: string)
    ensures |r| >= |s|
  {
    if s == [] then [] else EscapeChar(s[0]) + EscapeMap(s[1..])
  }

  lemma NoSpecialCons(s: string)
    requires s != []
    ensures NoSpecial(s) <==> !IsSpecial(s[0]) && NoSpecial(s[1..])
  {
    if !IsSpecial(s[0]) && NoSpecial(s[1..]) {
      forall k | 0 < k < |s| ensures !IsSpecial(s[k]) {
        assert s[k] == s[1..][k - 1];
      }
    }
    if NoSpecial(s) {
      forall j | 0 <= j < |s[1..]| ensures !IsSpecial(s[1..][j]) {
        assert s[1..][j] == s[j + 1];
      }
    }
  }

  /** Escaped text holds no raw `<`, `>`, `"` or `'`. */
  lemma {:induction false} EscapeMapNoMarkup(s: string)
    ensures NoMarkup(EscapeMap(s))
  {
    if s != [] {
      var h := EscapeChar(s[0]);
      var t := EscapeMap(s[1..]);
      EscapeMapNoMarkup(s[1..]);
      assert NoMarkup(h) by {
        if IsSpecial(s[0]) {
          assert h == Amp || h == Lt || h == Gt || h == Quot || h == Apos;
        }
      }
      assert forall j :: 0 <= j < |t| ==> (h + t)[|h| + j] == t[j];
    }
  }

  /**
   Text without any of the five characters is left as it is; text with one
   of them comes out strictly longer, and holding an `&`.
   */
  lemma {:induction false} EscapeMapPlain(s: string)
    ensures NoSpecial(s) ==> EscapeMap(s) == s
    ensures !NoSpecial(s) ==> |EscapeMap(s)| > |s| && '&' in EscapeMap(s)
  {
    if s != [] {
      var h := EscapeChar(s[0]);
      var t := EscapeMap(s[1..]);
      EscapeMapPlain(s[1..]);
      NoSpecialCons(s);
      if IsSpecial(s[0]) {
        assert (h + t)[0] == '&';
      } else if NoSpecial(s) {
        assert s == [s[0]] + s[1..];
      } else {
        var k :| 0 <= k < |t| && t[k] == '&';
        assert (h + t)[|h| + k] == '&';
      }
    }
  }

  /** Replace-all distributes over concatenation: it never looks across characters. */
  lemma {:induction false} ReplaceAllConcat(a: string, b: string, c: char, rep: string)
    ensures ReplaceAll(a + b, c, rep) == ReplaceAll(a, c, rep) + ReplaceAll(b, c, rep)
  {
    if a == [] {
      assert a + b == b;
    } else {
      var head := if a[0] == c then rep else [a[0]];
      assert (a + b)[0] == a[0];
      assert (a + b)[1..] == a[1..] + b;
      ReplaceAllConcat(a[1..], b, c, rep);
      calc {
        ReplaceAll(a + b, c, rep);
        head + ReplaceAll(a[1..] + b, c, rep);
        head + (ReplaceAll(a[1..], c, rep) + ReplaceAll(b, c, rep));
        (head + ReplaceAll(a[1..], c, rep)) + ReplaceAll(b, c, rep);
        ReplaceAll(a, c, rep) + ReplaceAll(b, c, rep);
      }
    }
  }

  lemma ChainConcat(a: string, b: string)
    ensures EscapeChain(a + b) == EscapeChain(a) + EscapeChain(b)
  {
    var a1, b1 := ReplaceAll(a, '&', Amp), ReplaceAll(b, '&', Amp);
    ReplaceAllConcat(a, b, '&', Amp);
    var a2, b2 := ReplaceAll(a1, '<', Lt), ReplaceAll(b1, '<', Lt);
    ReplaceAllConcat(a1, b1, '<', Lt);
    var a3, b3 := ReplaceAll(a2, '>', Gt), ReplaceAll(b2, '>', Gt);
    ReplaceAllConcat(a2, b2, '>', Gt);
    var a4, b4 := ReplaceAll(a3, '"', Quot), ReplaceAll(b3, '"', Quot);
    ReplaceAllConcat(a3, b3, '"', Quot);
    ReplaceAllConcat(a4, b4, '\'', Apos);
  }

  lemma ReplaceAllSingle(c: char, x: char, rep: string)
    ensures ReplaceAll([c], x, rep) == if c == x then rep else [c]
  {
    assert ReplaceAll([c], x, rep) == (if c == x then rep else [c]) + ReplaceAll([], x, rep);
  }

  /** The passes after the ampersand pass leave text without markup characters alone. */
  lemma LaterPassesKeep(e: string)
    requires '<' !in e && '>' !in e && '"' !in e && '\'' !in e
    ensures ReplaceAll(ReplaceAll(ReplaceAll(ReplaceAll(e, '<', Lt), '>', Gt), '"', Quot), '\'', Apos) == e
  {
    ReplaceAllAbsent(e, '<', Lt);
    ReplaceAllAbsent(e, '>', Gt);
    ReplaceAllAbsent(e, '"', Quot);
    ReplaceAllAbsent(e, '\'', Apos);
  }

  lemma PassesAfterLtKeep(e: string)
    requires '>' !in e && '"' !in e && '\'' !in e
    ensures ReplaceAll(ReplaceAll(ReplaceAll(e, '>', Gt), '"', Quot), '\'', Apos) == e
  {
    ReplaceAllAbsent(e, '>', Gt);
    ReplaceAllAbsent(e, '"', Quot);
    ReplaceAllAbsent(e, '\'', Apos);
  }

  lemma PassesAfterGtKeep(e: string)
    requires '"' !in e && '\'' !in e
    ensures ReplaceAll(ReplaceAll(e, '"', Quot), '\'', Apos) == e
  {
    ReplaceAllAbsent(e, '"', Quot);
    ReplaceAllAbsent(e, '\'', Apos);
  }

  lemma PassAfterQuotKeeps(e: string)
    requires '\'' !in e
    ensures ReplaceAll(e, '\'', Apos) == e
  {
    ReplaceAllAbsent(e, '\'', Apos);
  }

  lemma ChainOfAmp()
    ensures EscapeChain("&") == Amp
  {
    ReplaceAllSingle('&', '&', Amp);
    LaterPassesKeep(Amp);
  }

  lemma ChainOfLt()
    ensures EscapeChain("<") == Lt
  {
    ReplaceAllSingle('<', '&', Amp);
    ReplaceAllSingle('<', '<', Lt);
    PassesAfterLtKeep(Lt);
  }

  lemma ChainOfGt()
    ensures EscapeChain(">") == Gt
  {
    ReplaceAllSingle('>', '&', Amp);
    ReplaceAllSingle('>', '<', Lt);
    ReplaceAllSingle('>', '>', Gt);
    PassesAfterGtKeep(Gt);
  }

  lemma ChainOfQuot()
    ensures EscapeChain("\"") == Quot
  {
    ReplaceAllSingle('"', '&', Amp);
    ReplaceAllSingle('"', '<', Lt);
    ReplaceAllSingle('"', '>', Gt);
    ReplaceAllSingle('"', '"', Quot);
    PassAfterQuotKeeps(Quot);
  }

  lemma ChainOfApos()
    ensures EscapeChain("'") == Apos
  {
    ReplaceAllSingle('\'', '&', Amp);
    ReplaceAllSingle('\'', '<', Lt);
    ReplaceAllSingle('\'', '>', Gt);
    ReplaceAllSingle('\'', '"', Quot);
    ReplaceAllSingle('\'', '\'', Apos);
  }

  /** On a single character the chain produces that character's escape. */
  lemma ChainOfChar(c: char)
    ensures EscapeChain([c]) == EscapeChar(c)
  {
    if c == '&' { ChainOfAmp(); }
    else if c == '<' { ChainOfLt(); }
    else if c == '>' { ChainOfGt(); }
    else if c == '"' { ChainOfQuot(); }
    else if c == '\'' { ChainOfApos(); }
    else {
      ReplaceAllSingle(c, '&', Amp);
      ReplaceAllSingle(c, '<', Lt);
      ReplaceAllSingle(c, '>', Gt);
      ReplaceAllSingle(c, '"', Quot);
      ReplaceAllSingle(c, '\'', Apos);
    }
  }

  /**
   The five sequential passes equal the per-character map. This holds because
   the ampersand pass runs first: the entities introduced by later passes
   contain no character a later pass rewrites, and no pass after the first
   rewrites `&`.
   */
  lemma {:induction false} ChainIsCharMap(s: string)
    ensures EscapeChain(s) == EscapeMap(s)
  {
    if s != [] {
      assert s == [s[0]] + s[1..];
      ChainConcat([s[0]], s[1..]);
      ChainOfChar(s[0]);
      ChainIsCharMap(s[1..]);
    }
  }

  lemma HasAtShift(h: string, t: string, j: int, e: string)
    requires HasAt(t, j, e)
    ensures HasAt(h + t, |h| + j, e)
  {
    assert (h + t)[|h| + j..|h| + j + |e|] == t[j..j + |e|];
  }

  lemma HasAtFront(h: string, t: string, i: int, e: string)
    requires HasAt(h, i, e)
    ensures HasAt(h + t, i, e)
  {
    assert (h + t)[i..i + |e|] == h[i..i + |e|];
  }

  lemma EntityAtShift(h: string, t: string, j: int)
    requires EntityAt(t, j)
    ensures EntityAt(h + t, |h| + j)
  {
    if HasAt(t, j, Amp) { HasAtShift(h, t, j, Amp); }
    else if HasAt(t, j, Lt) { HasAtShift(h, t, j, Lt); }
    else if HasAt(t, j, Gt) { HasAtShift(h, t, j, Gt); }
    else if HasAt(t, j, Quot) { HasAtShift(h, t, j, Quot); }
    else { HasAtShift(h, t, j, Apos); }
  }

  /** Within the escape of one character, only index 0 can hold `&`, and an entity starts there. */
  lemma EscapeCharAmpersand(c: char, t: string, i: int)
    requires 0 <= i < |EscapeChar(c)| && EscapeChar(c)[i] == '&'
    ensures i == 0 && EntityAt(EscapeChar(c) + t, 0)
  {
    var h := EscapeChar(c);
    if c == '&' { HasAtFront(h, t, 0, Amp); }
    else if c == '<' { HasAtFront(h, t, 0, Lt); }
    else if c == '>' { HasAtFront(h, t, 0, Gt); }
    else if c == '"' { HasAtFront(h, t, 0, Quot); }
    else if c == '\'' { HasAtFront(h, t, 0, Apos); }
  }

  /** Prefixing the escape of one character keeps every `&` at the start of an entity. */
  lemma EntitiesCons(c: char, t: string)
    requires AmpersandsAreEntities(t)
    ensures AmpersandsAreEntities(EscapeChar(c) + t)
  {
    var h := EscapeChar(c);
    var r := h + t;
    forall i | 0 <= i < |r| && r[i] == '&' ensures EntityAt(r, i) {
      if i < |h| {
        EscapeCharAmpersand(c, t, i);
      } else {
        assert t[i - |h|] == r[i];
        EntityAtShift(h, t, i - |h|);
      }
    }
  }

  /** Every `&` in escaped text begins one of the five entities. */
  lemma {:induction false} EscapeMapEntities(s: string)
    ensures AmpersandsAreEntities(EscapeMap(s))
  {
    if s != [] {
      EscapeMapEntities(s[1..]);
      EntitiesCons(s[0], EscapeMap(s[1..]));
    }
  }

  /**
   Entity decoding: each of the five entities stands for its character,
   every other character for itself. This is only the entity step of how a
   browser reads text content; its newline normalisation and removal of
   U+0000 are not part of it.
   */
  function Unescape(s: string): string
    decreases |s|
  {
    if s == [] then []
    else if HasAt(s, 0, Amp) then "&" + Unescape(s[|Amp|..])
    else if HasAt(s, 0, Lt) then "<" + Unescape(s[|Lt|..])
    else if HasAt(s, 0, Gt) then ">" + Unescape(s[|Gt|..])
    else if HasAt(s, 0, Quot) then "\"" + Unescape(s[|Quot|..])
    else if HasAt(s, 0, Apos) then "'" + Unescape(s[|Apos|..])
    else [s[0]] + Unescape(s[1..])
  }

  /** An entity match at the front fixes the first two characters. */
  lemma HasAtFirstTwo(s: string, e: string)
    requires |e| >= 2
    ensures HasAt(s, 0, e) ==> s[0] == e[0] && s[1] == e[1]
  {
    if HasAt(s, 0, e) {
      assert s[0..|e|][0] == s[0] && s[0..|e|][1] == s[1];
    }
  }

  /** Text that starts with entity `e` reads back as the character `c` that `e` stands for. */
  lemma UnescapeEntity(e: string, c: char, t: string)
    requires (e, c) in {(Amp, '&'), (Lt, '<'), (Gt, '>'), (Quot, '"'), (Apos, '\'')}
    ensures Unescape(e + t) == [c] + Unescape(t)
  {
    var s := e + t;
    assert s[0..|e|] == e;
    assert s[|e|..] == t;
    assert s[1] == e[1];
    HasAtFirstTwo(s, Amp);
    HasAtFirstTwo(s, Lt);
    HasAtFirstTwo(s, Gt);
    HasAtFirstTwo(s, Quot);
    HasAtFirstTwo(s, Apos);
  }

  lemma UnescapeOneChar(c: char, t: string)
    ensures Unescape(EscapeChar(c) + t) == [c] + Unescape(t)
  {
    if c == '&' { UnescapeEntity(Amp, c, t); }
    else if c == '<' { UnescapeEntity(Lt, c, t); }
    else if c == '>' { UnescapeEntity(Gt, c, t); }
    else if c == '"' { UnescapeEntity(Quot, c, t); }
    else if c == '\'' { UnescapeEntity(Apos, c, t); }
    else {
      var s := [c] + t;
      assert s[1..] == t;
      assert s[0] == c;
      forall o | o in [Amp, Lt, Gt, Quot, Apos] ensures !HasAt(s, 0, o) {
        if |o| <= |s| {
          assert s[0..|o|][0] == s[0];
        }
      }
    }
  }

  /** Escaping loses nothing: decoding the entities of the escaped text gives the text itself. */
  lemma {:induction false} UnescapeEscape(s: string)
    ensures Unescape(EscapeMap(s)) == s
  {
    if s != [] {
      UnescapeOneChar(s[0], EscapeMap(s[1..]));
      UnescapeEscape(s[1..]);
      assert s == [s[0]] + s[1..];
    }
  }

  /**
   `escapeHTML(str)`: null and undefined give the empty string; any string
   goes through the five replace-all passes, which amounts to escaping it
   character by character. The result is empty exactly when there is no text.
   */
  function EscapeHTML(str: Option<string>): (r: string)
    ensures str.None? ==> r == ""
    ensures str.Some? ==> r == EscapeMap(str.value)
    ensures r == "" <==> (str.None? || str.value == "")
  {
    match str
    case None => ""
    case Some(s) =>
      ChainIsCharMap(s);
      EscapeChain(s)
  }

  /**
   Escaped text is safe to place in markup: it has no raw `<`, `>`, `"` or
   `'`, every `&` in it begins one of the five entities, and decoding its
   entities gives back the original text (null and undefined as the empty text).
   */
  lemma EscapeHTMLSafe(str: Option<string>)
    ensures NoMarkup(EscapeHTML(str))
    ensures AmpersandsAreEntities(EscapeHTML(str))
    ensures Unescape(EscapeHTML(str)) == str.GetOr("")
  {
    if str.Some? {
      EscapeMapNoMarkup(str.value);
      EscapeMapEntities(str.value);
      UnescapeEscape(str.value);
    }
  }

  /**
   Escaping is not idempotent: text holding any of the five characters changes
   again when escaped a second time, since its first escape holds an `&`.
   Plain text is left as it is.
   */
  lemma {:induction false} EscapeTwice(s: string)
    ensures !NoSpecial(s) ==> EscapeMap(EscapeMap(s)) != EscapeMap(s)
    ensures NoSpecial(s) ==> EscapeMap(EscapeMap(s)) == EscapeMap(s)
  {
    var r := EscapeMap(s);
    EscapeMapPlain(s);
    EscapeMapPlain(r);
    if !NoSpecial(s) {
      var k :| 0 <= k < |r| && r[k] == '&';
      assert IsSpecial(r[k]);
    }
  }
}
