/**
 * The built-in validators of `window.VALIDATORS` (EQUAL, REQUIRE,
 * CYRILLIC_LNG, EMAIL) and the Cyrillic filter that CYRILLIC_LNG and the
 * CLEAN_NOT_CYRILLIC_SYMBOLS handler share.
 *
 * A call argument is an `Arg`: a string, or `None` for the `undefined` a
 * JavaScript function sees when the caller passed fewer arguments.
 */
module Validators {
  import opened Wrappers

  type Arg = Option<string>

  /** The text JavaScript makes of an optional string: the string, or "undefined". */
  function JsText(a: Arg): string {
    a.GetOr("undefined")
  }

  /** Argument `i` of a call, `undefined` when the caller passed fewer. */
  function ArgAt(args: seq<Arg>, i: nat): Arg {
    if i < |args| then args[i] else None
  }

  // ---------------------------------------------------------------- EQUAL

  /** EQUAL: strict equality, so two strings agree character by character and
      `undefined` equals only `undefined`. */
  function Equal(needle: Arg, handle: Arg): (r: bool)
    ensures r <==> (needle.None? && handle.None?) ||
                   (needle.Some? && handle.Some? && |needle.value| == |handle.value| &&
                    forall i :: 0 <= i < |needle.value| ==> needle.value[i] == handle.value[i])
  {
    if needle.Some? && handle.Some? then needle.value == handle.value else needle == handle
  }

  // -------------------------------------------------------------- REQUIRE

  /** REQUIRE: fails on the empty string and on nothing else, not even on `undefined`. */
  function Require(value: Arg): (r: bool)
    ensures !r <==> value.Some? && |value.value| == 0
  {
    value != Some("")
  }

  // --------------------------------------------------------- CYRILLIC_LNG

  /** The class `[а-яА-Я]`: U+0430..U+044F and U+0410..U+042F; `ё` and `Ё` are outside it. */
  predicate IsCyrillic(c: char) {
    ('а' <= c <= 'я') || ('А' <= c <= 'Я')
  }

  predicate AllCyrillic(s: string) {
    forall i :: 0 <= i < |s| ==> IsCyrillic(s[i])
  }

  /** `r` is obtained from `s` by deleting characters. */
  ghost predicate IsSubsequence(r: string, s: string)
    decreases |s|
  {
    if s == [] then r == []
    else (r != [] && r[0] == s[0] && IsSubsequence(r[1..], s[1..])) || IsSubsequence(r, s[1..])
  }

  // The global replace of the complement class by '': delete every character outside the class.
  function StripNonCyrillic(s: string): (r: string)
    ensures |r| <= |s|
    ensures AllCyrillic(r)
    ensures |r| == |s| <==> AllCyrillic(s)
    ensures AllCyrillic(s) ==> r == s
  {
    if s == [] then []
    else (if IsCyrillic(s[0]) then [s[0]] else []) + StripNonCyrillic(s[1..])
  }

  /** The filter only deletes: what it returns is a subsequence of its input. */
  lemma {:induction false} StripIsSubsequence(s: string)
    ensures IsSubsequence(StripNonCyrillic(s), s)
  {
    if s != [] {
      StripIsSubsequence(s[1..]);
      var rest := StripNonCyrillic(s[1..]);
      if IsCyrillic(s[0]) {
        assert StripNonCyrillic(s) == [s[0]] + rest;
        assert ([s[0]] + rest)[1..] == rest;
      } else {
        assert StripNonCyrillic(s) == rest;
      }
    }
  }

  /** The filter keeps every Cyrillic letter, as many times as it occurs. */
  lemma {:induction false} StripKeepsCyrillic(s: string, c: char)
    requires IsCyrillic(c)
    ensures multiset(StripNonCyrillic(s))[c] == multiset(s)[c]
  {
    if s != [] {
      StripKeepsCyrillic(s[1..], c);
      assert s == [s[0]] + s[1..];
    }
  }

  /** CYRILLIC_LNG: nothing was deleted by the filter. */
  function CyrillicLng(value: string): (r: bool)
    ensures r <==> AllCyrillic(value)
  {
    0 == |value| - |StripNonCyrillic(value)|
  }

  /**
   * The CLEAN_NOT_CYRILLIC_SYMBOLS handler: the text to write back into the
   * field, or `None` when the lengths agree and the field is left alone.
   */
  function CleanNotCyrillic(value: string): (r: Option<string>)
    ensures r.None? <==> CyrillicLng(value)
    ensures r.Some? ==> |r.value| < |value| && CyrillicLng(r.value)
    ensures r.Some? ==> IsSubsequence(r.value, value)
    ensures r.Some? ==> r.value == StripNonCyrillic(value)
    ensures r.Some? ==> forall c :: IsCyrillic(c) ==> multiset(r.value)[c] == multiset(value)[c]
  {
    forall c | IsCyrillic(c) ensures multiset(StripNonCyrillic(value))[c] == multiset(value)[c] {
      StripKeepsCyrillic(value, c);
    }
    StripIsSubsequence(value);
    var afterCheck := StripNonCyrillic(value);
    if 0 != |value| - |afterCheck| then Some(afterCheck) else None
  }

  // ---------------------------------------------------------------- EMAIL

  /** The class `[A-Za-z0-9_\-.]` of the local part and the domain. */
  predicate IsEmailChar(c: char) {
    ('A' <= c <= 'Z') || ('a' <= c <= 'z') || ('0' <= c <= '9') || c == '_' || c == '-' || c == '.'
  }

  /** The class `[A-Za-z]` of the top-level domain. */
  predicate IsAsciiLetter(c: char) {
    ('A' <= c <= 'Z') || ('a' <= c <= 'z')
  }

  predicate AllEmailChars(s: string) {
    forall i :: 0 <= i < |s| ==> IsEmailChar(s[i])
  }

  predicate AllAsciiLetters(s: string) {
    forall i :: 0 <= i < |s| ==> IsAsciiLetter(s[i])
  }

  /** `s` splits as `local + "@" + domain + "." + tld` the way the pattern
      `^([A-Za-z0-9_\-.])+@([A-Za-z0-9_\-.])+\.([A-Za-z]{2,4})$` reads it. */
  ghost predicate EmailParts(s: string, local: string, domain: string, tld: string) {
    && s == local + "@" + domain + "." + tld
    && |local| >= 1 && AllEmailChars(local)
    && |domain| >= 1 && AllEmailChars(domain)
    && 2 <= |tld| <= 4 && AllAsciiLetters(tld)
  }

  ghost predicate MatchesEmailPattern(s: string) {
    exists local, domain, tld :: EmailParts(s, local, domain, tld)
  }

  /** The first position of `c` in `s`. */
  function IndexOf(s: string, c: char): (r: Option<nat>)
    ensures r.Some? ==> r.value < |s| && s[r.value] == c && c !in s[..r.value]
    ensures r.None? ==> c !in s
  {
    if s == [] then None
    else if s[0] == c then Some(0)
    else match IndexOf(s[1..], c)
      case None => None
      case Some(i) => Some(i + 1)
  }

  /** The last position of `c` in `s`. */
  function LastIndexOf(s: string, c: char): (r: Option<nat>)
    ensures r.Some? ==> r.value < |s| && s[r.value] == c && c !in s[r.value + 1..]
    ensures r.None? ==> c !in s
  {
    if s == [] then None
    else if s[|s| - 1] == c then Some(|s| - 1)
    else LastIndexOf(s[..|s| - 1], c)
  }

  /**
   * EMAIL, decided by splitting: neither character class holds '@', so the
   * '@' is the only one; the top-level domain holds no '.', so it follows
   * the last '.'.
   */
  function Email(value: string): (r: bool)
    ensures r ==> MatchesEmailPattern(value)
  {
    match (IndexOf(value, '@'), LastIndexOf(value, '.'))
    case (Some(at), Some(dot)) =>
      var ok :=
        && 0 < at && at + 1 < dot
        && AllEmailChars(value[..at])
        && AllEmailChars(value[at + 1..dot])
        && 2 <= |value| - (dot + 1) <= 4
        && AllAsciiLetters(value[dot + 1..]);
      if ok then
        // The split found is a witness for the pattern.
        var local, domain, tld := value[..at], value[at + 1..dot], value[dot + 1..];
        assert value == local + "@" + domain + "." + tld;
        assert EmailParts(value, local, domain, tld);
        true
      else false
    case _ => false
  }

  /** The split-based check accepts exactly the strings the pattern matches. */
  lemma EmailMatchesPattern(value: string)
    ensures Email(value) <==> MatchesEmailPattern(value)
  {
    if MatchesEmailPattern(value) {
      var local, domain, tld :| EmailParts(value, local, domain, tld);
      EmailSplitIsUnique(value, local, domain, tld);
    }
  }

  /** Any split the pattern admits is the one the check finds. */
  lemma EmailSplitIsUnique(value: string, local: string, domain: string, tld: string)
    requires EmailParts(value, local, domain, tld)
    ensures Email(value)
  {
    var at, dot := |local|, |local| + 1 + |domain|;
    AtIsUnique(value, local, domain, tld);
    DotIsLast(value, local, domain, tld);
    assert value[..at] == local;
    assert value[at + 1..dot] == domain;
    assert value[dot + 1..] == tld;
  }

  /** No character of the local part is '@', so the first '@' ends it. */
  lemma AtIsUnique(value: string, local: string, domain: string, tld: string)
    requires EmailParts(value, local, domain, tld)
    ensures IndexOf(value, '@') == Some(|local|)
  {
  }

  /** No character of the TLD is '.', so the last '.' precedes it. */
  lemma DotIsLast(value: string, local: string, domain: string, tld: string)
    requires EmailParts(value, local, domain, tld)
    ensures LastIndexOf(value, '.') == Some(|local| + 1 + |domain|)
  {
    var dot := |local| + 1 + |domain|;
    assert value[dot] == '.';
    var j := LastIndexOf(value, '.');
    assert j.Some? by { assert value[dot] in value; }
  }

  /** Strings the pattern accepts: the domain class admits dots. */
  lemma EmailAcceptsExamples()
    ensures MatchesEmailPattern("a@b.co")
    ensures MatchesEmailPattern("a@b.c.de")
  {
    assert EmailParts("a@b.co", "a", "b", "co");
    assert EmailParts("a@b.c.de", "a", "b.c", "de");
  }

  /** Strings the pattern rejects: a TLD over four letters, no '@', two '@'. */
  lemma EmailRejectsExamples()
    ensures !MatchesEmailPattern("a@b.toolongtld")
    ensures !MatchesEmailPattern("not-an-email")
    ensures !MatchesEmailPattern("a@@b.co")
  {
    // Each candidate split contradicts the literal: the '.' before the TLD
    // falls on a letter, there is no '@', or the domain starts with '@'.
    forall local, domain, tld | EmailParts("a@b.toolongtld", local, domain, tld) ensures false {
      EmailPartsLayout("a@b.toolongtld", local, domain, tld);
    }
    forall local, domain, tld | EmailParts("not-an-email", local, domain, tld) ensures false {
      EmailPartsLayout("not-an-email", local, domain, tld);
    }
    forall local, domain, tld | EmailParts("a@@b.co", local, domain, tld) ensures false {
      assert "a@@b.co"[1] == '@' && "a@@b.co"[2] == '@';
      EmailPartsLayout("a@@b.co", local, domain, tld);
    }
  }

  /** Where the parts of a split sit in the string. */
  lemma EmailPartsLayout(s: string, local: string, domain: string, tld: string)
    requires EmailParts(s, local, domain, tld)
    ensures |s| == |local| + |domain| + |tld| + 2
    ensures s[|local|] == '@' && s[|s| - |tld| - 1] == '.'
    ensures forall i :: 0 <= i < |s| && s[i] == '@' ==> i == |local|
  {
  }

  /** What RegExp `test` sees when it is given `undefined`. */
  lemma EmailRejectsUndefined()
    ensures !MatchesEmailPattern("undefined")
  {
    EmailMatchesPattern("undefined");
  }

  // ------------------------------------------------------------- registry

  /** The entries of `window.VALIDATORS`, by the names they are registered under. */
  datatype Builtin = EQUAL | REQUIRE | CYRILLIC_LNG | EMAIL

  /**
   * Calling validator `v` with `args`; `None` when the call throws, which
   * happens for CYRILLIC_LNG on `undefined` (it calls `.replace` on it).
   * RegExp `test` turns `undefined` into the text "undefined".
   */
  function Apply(v: Builtin, args: seq<Arg>): (r: Option<bool>)
    ensures r.None? <==> v == CYRILLIC_LNG && ArgAt(args, 0).None?
    ensures v == EQUAL ==> r == Some(ArgAt(args, 0) == ArgAt(args, 1))
    ensures v == REQUIRE ==> r == Some(ArgAt(args, 0) != Some(""))
    ensures v == CYRILLIC_LNG && r.Some? ==> (r.value <==> AllCyrillic(ArgAt(args, 0).value))
    ensures v == EMAIL ==> r == Some(MatchesEmailPattern(JsText(ArgAt(args, 0))))
    ensures v == EMAIL && ArgAt(args, 0).None? ==> r == Some(false)
  {
    var first := ArgAt(args, 0);
    match v
    case EQUAL => Some(Equal(first, ArgAt(args, 1)))
    case REQUIRE => Some(Require(first))
    case CYRILLIC_LNG => if first.None? then None else Some(CyrillicLng(first.value))
    case EMAIL =>
      EmailMatchesPattern(JsText(first));
      EmailRejectsUndefined();
      Some(Email(JsText(first)))
  }
}
