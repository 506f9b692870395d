/** PHP's `strip_tags($string, $allowed)`, simplified to its tag scanner.
    Outside a tag, a `<` opens a tag unless white space follows it, in which
    case it is copied as text; a NUL byte is dropped; every other character
    is copied. A tag runs from its `<` to the first following `>`; it is
    copied verbatim when its normalised name is listed in the allow string
    and dropped otherwise. A tag that never closes drops the rest of the
    input. */
module Strip {
  import opened Strings

  const Nul: char := 0 as char

  /** The C library's `isspace` in the "C" locale. */
  predicate IsSpace(c: char) {
    c == ' ' || c == '\t' || c == '\n' || c == 11 as char || c == 12 as char || c == '\r'
  }

  /** ASCII `tolower`. */
  function Lower(c: char): char {
    if 'A' <= c <= 'Z' then (c as int + 32) as char else c
  }

  function LowerAll(s: string): string {
    seq(|s|, i requires 0 <= i < |s| => Lower(s[i]))
  }

  /** Text the scanner copies unchanged: no NUL, and every `<` is followed
      by white space, so none of them opens a tag. */
  predicate LooseText(t: string) {
    (forall k :: 0 <= k < |t| ==> t[k] != Nul) &&
    (|t| > 0 ==> t[|t| - 1] != '<') &&
    (forall k :: 0 <= k < |t| - 1 ==> t[k] == '<' ==> IsSpace(t[k + 1]))
  }

  /** Text without `<` and without NUL. */
  predicate PlainText(t: string) {
    forall k :: 0 <= k < |t| ==> t[k] != '<' && t[k] != Nul
  }

  /** A closed tag as the scanner cuts it: `<` not followed by white space,
      then no `>`, then `>`. */
  predicate ClosedTag(tag: string) {
    |tag| >= 2 && tag[0] == '<' && !IsSpace(tag[1]) && tag[|tag| - 1] == '>' &&
    forall k :: 0 < k < |tag| - 1 ==> tag[k] != '>'
  }

  predicate SimpleTagChar(c: char) {
    c != '<' && c != '>' && c != '"' && c != '\'' && c != Nul
  }

  /** The inside of a tag `<inner>` that PHP's scanner closes at its `>` and
      copies unchanged when it is allowed: no bracket, quote or NUL inside,
      and not starting with white space, `!` (a comment or declaration) or
      `?` (a processing instruction). */
  predicate SimpleInner(inner: string) {
    (inner == [] || (!IsSpace(inner[0]) && inner[0] != '!' && inner[0] != '?')) &&
    forall k :: 0 <= k < |inner| ==> SimpleTagChar(inner[k])
  }

  /** The name php_tag_find extracts from `tag`, reading from position `i`:
      characters are lower-cased, whitespace before the name is skipped and
      whitespace after it ends it, a `/` directly after `<` or directly
      before `>` is dropped, and reading stops at `>`. */
  function NameFrom(tag: string, i: nat, started: bool): string
    requires 1 <= i <= |tag|
    decreases |tag| - i
  {
    if i == |tag| then []
    else
      var c := Lower(tag[i]);
      if c == '>' then []
      else if c == '<' then "<" + NameFrom(tag, i + 1, started)
      else if IsSpace(c) then (if started then [] else NameFrom(tag, i + 1, false))
      else
        var dropSlash := c == '/' && (tag[i - 1] == '<' || (i + 1 < |tag| && tag[i + 1] == '>'));
        (if dropSlash then [] else [c]) + NameFrom(tag, i + 1, true)
  }

  function TagName(tag: string): string
    requires |tag| >= 1
  {
    NameFrom(tag, 1, false)
  }

  /** The normalised tag looked up in the allow string: `<name>`. */
  function Normalized(tag: string): string
    requires |tag| >= 1
  {
    "<" + TagName(tag) + ">"
  }

  /** A tag survives when its normalised form occurs in the lower-cased allow string. */
  predicate Allowed(tag: string, allow: string)
    requires |tag| >= 1
  {
    Occurs(Normalized(tag), LowerAll(allow))
  }

  /** The position of the first `>` at or after `from`, or |s| when there is none. */
  function IndexOfGt(s: string, from: nat): (j: nat)
    requires from <= |s|
    ensures from <= j <= |s|
    ensures j < |s| ==> s[j] == '>'
    ensures forall k :: from <= k < j ==> s[k] != '>'
    decreases |s| - from
  {
    if from == |s| || s[from] == '>' then from else IndexOfGt(s, from + 1)
  }

  function StripTags(s: string, allow: string): (r: string)
    ensures |r| <= |s|
    decreases |s|
  {
    if s == [] then []
    else if s[0] == Nul then StripTags(s[1..], allow)
    else if s[0] != '<' || (|s| > 1 && IsSpace(s[1])) then [s[0]] + StripTags(s[1..], allow)
    else
      var j := IndexOfGt(s, 1);
      if j == |s| then []
      else (if Allowed(s[..j + 1], allow) then s[..j + 1] else []) + StripTags(s[j + 1..], allow)
  }

  /** A character the scanner copies: anything but NUL, and `<` only before
      white space. */
  lemma StripCons(c: char, tail: string, allow: string)
    requires c != Nul && (c == '<' ==> |tail| > 0 && IsSpace(tail[0]))
    ensures StripTags([c] + tail, allow) == [c] + StripTags(tail, allow)
  {
    assert ([c] + tail)[1..] == tail;
  }

  /** Text without NUL whose every `<` is followed by white space passes
      through unchanged. */
  lemma {:induction false} StripText(t: string, rest: string, allow: string)
    requires LooseText(t)
    ensures StripTags(t + rest, allow) == t + StripTags(rest, allow)
    decreases |t|
  {
    if t != [] {
      assert (t + rest)[1..] == t[1..] + rest;
      LooseTail(t);
      StripText(t[1..], rest, allow);
      if t[0] == '<' {
        assert |t| > 1;
        assert (t[1..] + rest)[0] == t[1];
      }
      StripCons(t[0], t[1..] + rest, allow);
      assert t + rest == [t[0]] + (t[1..] + rest);
    } else {
      assert t + rest == rest;
    }
  }

  lemma LooseTail(t: string)
    requires t != [] && LooseText(t)
    ensures LooseText(t[1..])
  {
    forall k | 0 <= k < |t[1..]| - 1 ensures t[1..][k] == '<' ==> IsSpace(t[1..][k + 1]) {
      assert t[1..][k] == t[k + 1] && t[1..][k + 1] == t[k + 2];
    }
  }

  /** A closed tag is copied verbatim when allowed and dropped otherwise;
      scanning resumes right after it. */
  lemma StripClosed(tag: string, rest: string, allow: string)
    requires ClosedTag(tag)
    ensures StripTags(tag + rest, allow)
         == (if Allowed(tag, allow) then tag else []) + StripTags(rest, allow)
  {
    var s := tag + rest;
    var j := IndexOfGt(s, 1);
    assert s[1] == tag[1];
    assert s[|tag| - 1] == '>';
    assert j == |tag| - 1;
    assert s[..j + 1] == tag;
    assert s[j + 1..] == rest;
  }

  /** A tag `<inner>` with a simple inside is kept when its normalised name
      is in the allow string, and removed otherwise. */
  lemma StripTag(inner: string, rest: string, allow: string)
    requires SimpleInner(inner)
    ensures StripTags("<" + inner + ">" + rest, allow)
         == (if Allowed("<" + inner + ">", allow) then "<" + inner + ">" else []) + StripTags(rest, allow)
  {
    var tag := "<" + inner + ">";
    assert ClosedTag(tag) by {
      if inner != [] {
        assert tag[1] == inner[0];
      }
      forall k | 0 < k < |tag| - 1 ensures tag[k] != '>' {
        assert tag[k] == inner[k - 1];
      }
    }
    StripClosed(tag, rest, allow);
  }

  /** A `<` that is not followed by white space and is never closed swallows
      the rest of the input. */
  lemma StripUnclosed(s: string, allow: string)
    requires |s| > 0 && s[0] == '<' && (|s| == 1 || !IsSpace(s[1]))
    requires forall k :: 0 <= k < |s| ==> s[k] != '>'
    ensures StripTags(s, allow) == []
  {
    assert IndexOfGt(s, 1) == |s|;
  }

  /** Stripping a second time changes nothing. */
  lemma {:induction false} StripIdempotent(s: string, allow: string)
    ensures StripTags(StripTags(s, allow), allow) == StripTags(s, allow)
    decreases |s|
  {
    if s == [] {
    } else if s[0] == Nul {
      StripIdempotent(s[1..], allow);
    } else if s[0] != '<' || (|s| > 1 && IsSpace(s[1])) {
      var tail := StripTags(s[1..], allow);
      if s[0] == '<' {
        assert s[1..][0] == s[1];
        assert tail == [s[1]] + StripTags(s[1..][1..], allow);
      }
      StripCons(s[0], tail, allow);
      StripIdempotent(s[1..], allow);
      assert StripTags(s, allow) == [s[0]] + tail;
    } else {
      var j := IndexOfGt(s, 1);
      if j < |s| {
        StripIdempotent(s[j + 1..], allow);
        StripIdempotentTag(s, allow);
      }
    }
  }

  /** The induction step of StripIdempotent for input that starts with a closed tag. */
  lemma StripIdempotentTag(s: string, allow: string)
    requires |s| > 1 && s[0] == '<' && !IsSpace(s[1]) && IndexOfGt(s, 1) < |s|
    requires var j := IndexOfGt(s, 1);
      StripTags(StripTags(s[j + 1..], allow), allow) == StripTags(s[j + 1..], allow)
    ensures StripTags(StripTags(s, allow), allow) == StripTags(s, allow)
  {
    var j := IndexOfGt(s, 1);
    var tag := s[..j + 1];
    var tail := StripTags(s[j + 1..], allow);
    var kept := Allowed(tag, allow);
    assert StripTags(s, allow) == (if kept then tag else []) + tail;
    if kept {
      assert ClosedTag(tag) by {
        assert tag[1] == s[1];
      }
      StripClosed(tag, tail, allow);
    } else {
      assert StripTags(s, allow) == tail;
    }
  }
}
