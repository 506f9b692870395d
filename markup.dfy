/** The `html2escpos` filter: `strip_tags` with the allow string
    "<b><strong><u>", then an array `str_replace` that rewrites the six
    literal tags into ESC/POS emphasis and underline commands. */
module Markup {
  import opened Strings
  import opened Replace
  import opened Strip
  import opened EscPos

  const AllowList: string := "<b><strong><u>"

  /** The tag names the allow string lists. */
  const AllowedNames: seq<string> := ["b", "strong", "u"]

  const BoldOn: string := [Esc, 'E', '1']
  const BoldOff: string := [Esc, 'E', '0']
  const UnderlineOn: string := [Esc, '-', '1']
  const UnderlineOff: string := [Esc, '-', '0']

  /** The two parallel arrays handed to `str_replace`, in the source's order. */
  const TagSearch: seq<string> := ["<b>", "<strong>", "</b>", "</strong>", "<u>", "</u>"]
  const TagReplace: seq<string> := [BoldOn, BoldOn, BoldOff, BoldOff, UnderlineOn, UnderlineOff]

  function Html2EscPos(s: string): string {
    StrReplace(TagSearch, TagReplace, StripTags(s, AllowList))
  }

  // ---------------------------------------------------------------------------
  // Properties of the replacement table and of the whole filter on any input

  /** The commands html2escpos emits are the enter and exit commands of the
      bold and underline filters. */
  lemma CodesMatchFilters()
    ensures BoldOn == EnterCode(Bold) && BoldOff == ExitCode(Bold)
    ensures UnderlineOn == EnterCode(Underline) && UnderlineOff == ExitCode(Underline)
    ensures forall i :: 0 <= i < |TagSearch| ==> |TagReplace[i]| == 3 && TagReplace[i][0] == Esc
  {
  }

  lemma TableChainSafe()
    ensures ChainSafe(TagSearch, TagReplace)
  {
    assert |TagSearch| == |TagReplace| == 6;
    forall i, j | 0 <= i < 6 && 0 <= j < 6 ensures Disjoint(TagSearch[i], TagReplace[j]) {
      assert forall c :: c in TagReplace[j] ==> c == Esc || c == 'E' || c == '-' || c == '0' || c == '1';
    }
  }

  /** None of the six literal tags survives the replace stage. */
  lemma Html2EscPosNoLiteralTags(s: string)
    ensures forall q :: q in TagSearch ==> !Occurs(q, Html2EscPos(s))
  {
    TableChainSafe();
    StrReplaceRemovesAll(TagSearch, TagReplace, StripTags(s, AllowList));
  }

  /** Neither stage lengthens the text. */
  lemma Html2EscPosShrinks(s: string)
    ensures |Html2EscPos(s)| <= |s|
  {
    StrReplaceShrinks(TagSearch, TagReplace, StripTags(s, AllowList));
  }

  // ---------------------------------------------------------------------------
  // Which tags the strip stage keeps

  function TagOfNames(names: seq<string>): string
    decreases |names|
  {
    if names == [] then [] else "<" + names[0] + ">" + TagOfNames(names[1..])
  }

  predicate NoBrackets(s: string) {
    forall k :: 0 <= k < |s| ==> s[k] != '<' && s[k] != '>'
  }

  lemma {:induction false} NameFromNoGt(tag: string, i: nat, started: bool)
    requires 1 <= i <= |tag|
    ensures forall k :: 0 <= k < |NameFrom(tag, i, started)| ==> NameFrom(tag, i, started)[k] != '>'
    decreases |tag| - i
  {
    if i < |tag| {
      var c := Lower(tag[i]);
      if c != '>' {
        if c == '<' || !IsSpace(c) {
          NameFromNoGt(tag, i + 1, c != '<' || started);
        } else if !started {
          NameFromNoGt(tag, i + 1, false);
        }
      }
    }
  }

  /** A bracketed name that starts a bracketed name is that name. */
  lemma BracketPrefix(n: string, m: string, rest: string)
    requires forall k :: 0 <= k < |n| ==> n[k] != '>'
    requires forall k :: 0 <= k < |m| ==> m[k] != '>'
    requires "<" + n + ">" <= "<" + m + ">" + rest
    ensures n == m
  {
    var q := "<" + n + ">";
    var t := "<" + m + ">" + rest;
    if |n| < |m| {
      PrefixAt(q, t, |n| + 1);
      assert false;
    } else if |n| > |m| {
      PrefixAt(q, t, |m| + 1);
      assert false;
    } else {
      forall k | 0 <= k < |n| ensures n[k] == m[k] {
        assert q[k + 1] == n[k] && t[k + 1] == m[k];
      }
    }
  }

  lemma PrefixAt(q: string, t: string, i: nat)
    requires q <= t && i < |q|
    ensures q[i] == t[i]
  {
  }

  /** `<n>` occurs in a list of bracketed names exactly when n is one of them. */
  lemma {:induction false} OccursInTagList(n: string, names: seq<string>)
    requires forall k :: 0 <= k < |n| ==> n[k] != '>'
    requires forall i :: 0 <= i < |names| ==> NoBrackets(names[i])
    ensures Occurs("<" + n + ">", TagOfNames(names)) <==> n in names
    decreases |names|
  {
    var q := "<" + n + ">";
    if names == [] {
      assert !Occurs(q, []);
    } else {
      var m := names[0];
      var head := "<" + m + ">";
      var rest := TagOfNames(names[1..]);
      assert TagOfNames(names) == head + rest;
      OccursInTagList(n, names[1..]);
      if n in names {
        if n == m {
          assert q <= head + rest;
        } else {
          assert n in names[1..];
          assert (head + rest)[|head|..] == rest;
          OccursInSuffix(q, head + rest, |head|);
        }
      }
      if Occurs(q, head + rest) {
        if q <= head + rest {
          BracketPrefix(n, m, rest);
        } else {
          assert (head + rest)[1..] == head[1..] + rest;
          forall k | 0 <= k < |head[1..]| ensures head[1..][k] != q[0] {
            if k < |m| {
              assert head[1..][k] == m[k];
            }
          }
          OccursPastPrefix(q, head[1..], rest);
        }
      }
    }
  }

  lemma LowerAllowList()
    ensures LowerAll(AllowList) == AllowList
    ensures AllowList == TagOfNames(AllowedNames)
  {
    AllowListLower();
    AllowListNames();
  }

  lemma AllowListLower()
    ensures LowerAll(AllowList) == AllowList
  {
    forall i | 0 <= i < |AllowList| ensures LowerAll(AllowList)[i] == AllowList[i] {
      var c := AllowList[i];
      assert c == '<' || c == '>' || c == '/' || 'a' <= c <= 'z';
    }
  }

  lemma AllowListNames()
    ensures AllowList == TagOfNames(AllowedNames)
  {
    var n := AllowedNames;
    assert n[1..][1..][1..] == [];
    assert TagOfNames(n[1..][1..]) == "<u>";
    assert TagOfNames(n[1..]) == "<strong>" + "<u>";
  }

  /** The strip stage's lookup, a substring search in "<b><strong><u>",
      keeps a tag exactly when its normalised name is b, strong or u. */
  lemma AllowedIff(tag: string)
    requires |tag| >= 1
    ensures Allowed(tag, AllowList) <==> TagName(tag) in AllowedNames
  {
    LowerAllowList();
    NameFromNoGt(tag, 1, false);
    OccursInTagList(TagName(tag), AllowedNames);
  }

  lemma TableTagNames()
    ensures TagName("<b>") == "b" && TagName("</b>") == "b"
    ensures TagName("<strong>") == "strong" && TagName("</strong>") == "strong"
    ensures TagName("<u>") == "u" && TagName("</u>") == "u"
  {
    BoldTagNames();
    StrongTagNames();
    UnderlineTagNames();
  }

  lemma BoldTagNames()
    ensures TagName("<b>") == "b" && TagName("</b>") == "b"
  {
  }

  lemma StrongTagNames()
    ensures TagName("<strong>") == "strong" && TagName("</strong>") == "strong"
  {
    StrongOpenName();
    StrongCloseName();
  }

  lemma StrongOpenName()
    ensures TagName("<strong>") == "strong"
  {
  }

  lemma StrongCloseName()
    ensures TagName("</strong>") == "strong"
  {
  }

  lemma UnderlineTagNames()
    ensures TagName("<u>") == "u" && TagName("</u>") == "u"
  {
  }

  /** Each of the six literal tags passes the strip stage. */
  lemma TableTagsAllowed()
    ensures forall q :: q in TagSearch ==> Allowed(q, AllowList)
  {
    TableTagNames();
    AllowedIff("<b>");
    AllowedIff("<strong>");
    AllowedIff("</b>");
    AllowedIff("</strong>");
    AllowedIff("<u>");
    AllowedIff("</u>");
  }

  /** Upper-case spellings, attributes and a self-closing slash do not stop
      a tag from passing the strip stage. */
  lemma AllowListAccepts()
    ensures Allowed("<B>", AllowList) && Allowed("<b class=\"x\">", AllowList) && Allowed("<b/>", AllowList)
  {
    AcceptedName("<B>");
    AcceptedName("<b class=\"x\">");
    AcceptedName("<b/>");
  }

  /** Other names, and a space after the slash of a closing tag, make the
      strip stage drop a tag. */
  lemma AllowListRejects()
    ensures !Allowed("<i>", AllowList) && !Allowed("<br/>", AllowList) && !Allowed("</ b>", AllowList)
  {
    RejectsItalic();
    RejectsBreak();
    RejectsSpacedSlash();
  }

  lemma RejectsItalic()
    ensures !Allowed("<i>", AllowList)
  {
    assert TagName("<i>") == "i";
    RejectedName("<i>", "i");
  }

  lemma RejectsBreak()
    ensures !Allowed("<br/>", AllowList)
  {
    assert TagName("<br/>") == "br";
    RejectedName("<br/>", "br");
  }

  lemma RejectsSpacedSlash()
    ensures !Allowed("</ b>", AllowList)
  {
    assert TagName("</ b>") == "";
    RejectedName("</ b>", "");
  }

  lemma AcceptedName(tag: string)
    requires |tag| >= 1 && TagName(tag) == "b"
    ensures Allowed(tag, AllowList)
  {
    AllowedIff(tag);
  }

  lemma RejectedName(tag: string, name: string)
    requires |tag| >= 1 && TagName(tag) == name && name !in AllowedNames
    ensures !Allowed(tag, AllowList)
  {
    AllowedIff(tag);
  }

  // ---------------------------------------------------------------------------
  // A reference translation on text split into pieces

  /** Input cut at its tags: text between tags, or a tag `<inner>`. */
  datatype Piece = Text(text: string) | Tag(inner: string)

  function PieceString(p: Piece): string {
    match p
    case Text(t) => t
    case Tag(inner) => "<" + inner + ">"
  }

  /** The concatenation of `f` over a sequence of pieces. */
  function ConcatMap(f: Piece -> string, ps: seq<Piece>): string
    decreases |ps|
  {
    if ps == [] then [] else f(ps[0]) + ConcatMap(f, ps[1..])
  }

  function Render(ps: seq<Piece>): string {
    ConcatMap(PieceString, ps)
  }

  /** Text holds no NUL and opens no tag (each `<` in it is followed by white
      space); a tag has a simple inside, on which the modelled scanner agrees
      with PHP's. */
  predicate WellFormedPiece(p: Piece) {
    match p
    case Text(t) => LooseText(t)
    case Tag(inner) => SimpleInner(inner)
  }

  predicate WellFormed(ps: seq<Piece>) {
    forall i :: 0 <= i < |ps| ==> WellFormedPiece(ps[i])
  }

  /** The command a literal table tag stands for. */
  function TagCode(inner: string): Option<string> {
    if inner == "b" || inner == "strong" then Some(BoldOn)
    else if inner == "/b" || inner == "/strong" then Some(BoldOff)
    else if inner == "u" then Some(UnderlineOn)
    else if inner == "/u" then Some(UnderlineOff)
    else None
  }

  /** What html2escpos makes of one piece: text is kept, a disallowed tag is
      dropped, a literal table tag becomes its command, and any other
      allowed tag is kept as written. */
  function Translate(p: Piece): string {
    match p
    case Text(t) => t
    case Tag(inner) =>
      var tag := "<" + inner + ">";
      if TagName(tag) !in AllowedNames then []
      else match TagCode(inner)
        case Some(code) => code
        case None => tag
  }

  function TranslateAll(ps: seq<Piece>): string {
    ConcatMap(Translate, ps)
  }

  // The strip stage on pieces

  predicate Keeps(p: Piece, allow: string) {
    match p
    case Text(_) => true
    case Tag(inner) => Allowed("<" + inner + ">", allow)
  }

  function Kept(ps: seq<Piece>, allow: string): seq<Piece>
    decreases |ps|
  {
    if ps == [] then [] else (if Keeps(ps[0], allow) then [ps[0]] else []) + Kept(ps[1..], allow)
  }

  lemma {:induction false} KeptWellFormed(ps: seq<Piece>, allow: string)
    requires WellFormed(ps)
    ensures WellFormed(Kept(ps, allow))
    decreases |ps|
  {
    if ps != [] {
      WellFormedTail(ps);
      KeptWellFormed(ps[1..], allow);
      var k := Kept(ps[1..], allow);
      var keep := Keeps(ps[0], allow);
      if keep {
        assert Kept(ps, allow) == [ps[0]] + k;
        WellFormedCons(ps[0], k);
      } else {
        assert Kept(ps, allow) == k;
      }
    }
  }

  lemma WellFormedCons(p: Piece, k: seq<Piece>)
    requires WellFormedPiece(p) && WellFormed(k)
    ensures WellFormed([p] + k)
  {
    forall i | 0 <= i < |[p] + k| ensures WellFormedPiece(([p] + k)[i]) {
      if i > 0 {
        assert ([p] + k)[i] == k[i - 1];
      }
    }
  }

  /** strip_tags on one well-formed piece followed by anything. */
  lemma StripPiece(p: Piece, rest: string, allow: string)
    requires WellFormedPiece(p)
    ensures StripTags(PieceString(p) + rest, allow)
         == (if Keeps(p, allow) then PieceString(p) else []) + StripTags(rest, allow)
  {
    match p
    case Text(t) =>
      StripText(t, rest, allow);
    case Tag(inner) =>
      StripTag(inner, rest, allow);
  }

  lemma WellFormedTail(ps: seq<Piece>)
    requires ps != [] && WellFormed(ps)
    ensures WellFormedPiece(ps[0]) && WellFormed(ps[1..])
  {
    forall i | 0 <= i < |ps[1..]| ensures WellFormedPiece(ps[1..][i]) {
      assert ps[1..][i] == ps[i + 1];
    }
  }

  lemma RenderCons(kept: seq<Piece>, p: Piece, k: seq<Piece>)
    requires kept == [p] + k
    ensures Render(kept) == PieceString(p) + Render(k)
  {
    assert kept[1..] == k;
  }

  /** strip_tags keeps the text and the allowed tags, verbatim and in order. */
  lemma {:induction false} StripRender(ps: seq<Piece>, allow: string)
    requires WellFormed(ps)
    ensures StripTags(Render(ps), allow) == Render(Kept(ps, allow))
    decreases |ps|
  {
    if ps != [] {
      var p := ps[0];
      WellFormedTail(ps);
      StripRender(ps[1..], allow);
      StripPiece(p, Render(ps[1..]), allow);
      var k := Kept(ps[1..], allow);
      if Keeps(p, allow) {
        RenderCons([p] + k, p, k);
      } else {
        assert Kept(ps, allow) == k;
      }
    }
  }

  // The replace stage on pieces

  /** A search string of the form `<x>` with no `>` inside x. */
  predicate BracketLiteral(q: string) {
    |q| >= 2 && q[0] == '<' && !IsSpace(q[1]) && q[|q| - 1] == '>' &&
    forall k :: 0 < k < |q| - 1 ==> q[k] != '>'
  }

  /** One `str_replace` pass on a single piece: a tag spelled exactly like
      the search string turns into the replacement. */
  function PassPiece(p: Piece, search: string, rep: string): Piece {
    match p
    case Text(_) => p
    case Tag(inner) => if "<" + inner + ">" == search then Text(rep) else p
  }

  /** All passes of the array form on a single piece. */
  function ReplacePiece(search: seq<string>, replace: seq<string>, p: Piece): Piece
    requires |search| == |replace|
    decreases |search|
  {
    if search == [] then p else ReplacePiece(search[1..], replace[1..], PassPiece(p, search[0], replace[0]))
  }

  function ReplaceRendered(search: seq<string>, replace: seq<string>, ps: seq<Piece>): string
    requires |search| == |replace|
    decreases |ps|
  {
    if ps == [] then [] else PieceString(ReplacePiece(search, replace, ps[0])) + ReplaceRendered(search, replace, ps[1..])
  }

  /** A pass whose search string is `<` and then a character other than
      white space skips text in which every `<` is followed by white space. */
  lemma {:induction false} ReplaceText(t: string, b: string, p: string, r: string)
    requires LooseText(t)
    requires |p| >= 2 && p[0] == '<' && !IsSpace(p[1])
    ensures ReplaceAll(t + b, p, r) == t + ReplaceAll(b, p, r)
    decreases |t|
  {
    if t == [] {
      assert t + b == b;
    } else {
      if t[0] == '<' {
        assert |t| > 1 && (t + b)[1] == t[1];
      }
      assert !(p <= t + b);
      assert (t + b)[1..] == t[1..] + b;
      LooseTail(t);
      ReplaceText(t[1..], b, p, r);
    }
  }

  /** What follows a tag's `<` reads as text to a later pass. */
  lemma InsideLoose(inner: string)
    requires SimpleInner(inner)
    ensures LooseText(inner + ">")
  {
    forall k | 0 <= k < |inner + ">"| ensures (inner + ">")[k] != Nul && (inner + ">")[k] != '<' {
      if k < |inner| {
        assert (inner + ">")[k] == inner[k];
      }
    }
  }

  lemma ReplaceTag(inner: string, b: string, p: string, r: string)
    requires SimpleInner(inner) && BracketLiteral(p)
    ensures ReplaceAll("<" + inner + ">" + b, p, r)
         == (if "<" + inner + ">" == p then r else "<" + inner + ">") + ReplaceAll(b, p, r)
  {
    var tag := "<" + inner + ">";
    var x := p[1..|p| - 1];
    assert p == "<" + x + ">";
    if tag == p {
      assert (tag + b)[|p|..] == b;
    } else {
      if p <= tag + b {
        BracketPrefix(x, inner, b);
      }
      assert (tag + b)[1..] == (inner + ">") + b;
      InsideLoose(inner);
      ReplaceText(inner + ">", b, p, r);
      assert [(tag + b)[0]] + (inner + ">") == tag;
    }
  }

  lemma ReplaceOnePiece(pc: Piece, b: string, p: string, r: string)
    requires WellFormedPiece(pc) && BracketLiteral(p)
    ensures ReplaceAll(PieceString(pc) + b, p, r) == PieceString(PassPiece(pc, p, r)) + ReplaceAll(b, p, r)
  {
    match pc
    case Text(t) => ReplaceText(t, b, p, r);
    case Tag(inner) => ReplaceTag(inner, b, p, r);
  }

  /** The tables the piece-wise replace lemmas apply to. */
  predicate TagTable(search: seq<string>, replace: seq<string>) {
    |search| == |replace| &&
    (forall i :: 0 <= i < |search| ==> BracketLiteral(search[i])) &&
    (forall i :: 0 <= i < |replace| ==> PlainText(replace[i]))
  }

  lemma {:induction false} StrReplaceOnePiece(search: seq<string>, replace: seq<string>, pc: Piece, b: string)
    requires TagTable(search, replace) && WellFormedPiece(pc)
    ensures StrReplace(search, replace, PieceString(pc) + b)
         == PieceString(ReplacePiece(search, replace, pc)) + StrReplace(search, replace, b)
    decreases |search|
  {
    if search != [] {
      ReplaceOnePiece(pc, b, search[0], replace[0]);
      var pc' := PassPiece(pc, search[0], replace[0]);
      assert WellFormedPiece(pc');
      assert TagTable(search[1..], replace[1..]) by {
        forall i | 0 <= i < |search[1..]| ensures BracketLiteral(search[1..][i]) {
          assert search[1..][i] == search[i + 1];
        }
        forall i | 0 <= i < |replace[1..]| ensures PlainText(replace[1..][i]) {
          assert replace[1..][i] == replace[i + 1];
        }
      }
      StrReplaceOnePiece(search[1..], replace[1..], pc', ReplaceAll(b, search[0], replace[0]));
    }
  }

  lemma {:induction false} StrReplaceNothing(search: seq<string>, replace: seq<string>)
    ensures StrReplace(search, replace, []) == []
    decreases |search|
  {
    if search != [] {
      StrReplaceNothing(search[1..], if replace == [] then [] else replace[1..]);
    }
  }

  /** The array str_replace works piece by piece on well-formed input. */
  lemma {:induction false} StrReplaceRender(search: seq<string>, replace: seq<string>, ps: seq<Piece>)
    requires TagTable(search, replace) && WellFormed(ps)
    ensures StrReplace(search, replace, Render(ps)) == ReplaceRendered(search, replace, ps)
    decreases |ps|
  {
    if ps == [] {
      StrReplaceNothing(search, replace);
    } else {
      assert WellFormedPiece(ps[0]);
      StrReplaceOnePiece(search, replace, ps[0], Render(ps[1..]));
      assert WellFormed(ps[1..]) by {
        forall i | 0 <= i < |ps[1..]| ensures WellFormedPiece(ps[1..][i]) {
          assert ps[1..][i] == ps[i + 1];
        }
      }
      StrReplaceRender(search, replace, ps[1..]);
    }
  }

  lemma TableIsTagTable()
    ensures TagTable(TagSearch, TagReplace)
  {
  }

  lemma BracketEq(a: string, b: string)
    ensures ("<" + a + ">" == "<" + b + ">") <==> a == b
  {
    if "<" + a + ">" == "<" + b + ">" {
      assert a == ("<" + a + ">")[1..|a| + 1];
      assert b == ("<" + b + ">")[1..|b| + 1];
    }
  }

  /** The six passes turn a tag into its command when it is one of the
      literal table tags, and leave it alone otherwise. */
  lemma ReplaceTagPiece(inner: string)
    ensures PieceString(ReplacePiece(TagSearch, TagReplace, Tag(inner)))
         == if TagCode(inner).Some? then TagCode(inner).value else "<" + inner + ">"
  {
    assert "<b>" == "<" + "b" + ">" && "<strong>" == "<" + "strong" + ">";
    assert "</b>" == "<" + "/b" + ">" && "</strong>" == "<" + "/strong" + ">";
    assert "<u>" == "<" + "u" + ">" && "</u>" == "<" + "/u" + ">";
    BracketEq(inner, "b");
    BracketEq(inner, "strong");
    BracketEq(inner, "/b");
    BracketEq(inner, "/strong");
    BracketEq(inner, "u");
    BracketEq(inner, "/u");
  }

  /** On a piece the strip stage keeps, the six passes compute Translate. */
  lemma TranslateKeptPiece(p: Piece)
    requires WellFormedPiece(p) && Keeps(p, AllowList)
    ensures PieceString(ReplacePiece(TagSearch, TagReplace, p)) == Translate(p)
  {
    match p
    case Text(t) =>
    case Tag(inner) =>
      AllowedIff("<" + inner + ">");
      ReplaceTagPiece(inner);
  }

  lemma {:induction false} TranslateKept(ps: seq<Piece>)
    requires WellFormed(ps)
    ensures ReplaceRendered(TagSearch, TagReplace, Kept(ps, AllowList)) == TranslateAll(ps)
    decreases |ps|
  {
    if ps != [] {
      var p := ps[0];
      var k := Kept(ps[1..], AllowList);
      assert WellFormedPiece(p);
      assert WellFormed(ps[1..]) by {
        forall i | 0 <= i < |ps[1..]| ensures WellFormedPiece(ps[1..][i]) {
          assert ps[1..][i] == ps[i + 1];
        }
      }
      TranslateKept(ps[1..]);
      if Keeps(p, AllowList) {
        TranslateKeptPiece(p);
        assert ([p] + k)[1..] == k;
        assert Kept(ps, AllowList) == [p] + k;
      } else {
        AllowedIff(PieceString(p));
        assert Kept(ps, AllowList) == k;
        assert Translate(p) == [];
      }
    }
  }

  /** On input cut into well-formed pieces, html2escpos equals the piece-wise
      translation: text unchanged, each table tag replaced by its command in
      place, other allowed tags kept as written, other tags removed. */
  lemma Html2EscPosPieces(ps: seq<Piece>)
    requires WellFormed(ps)
    ensures Html2EscPos(Render(ps)) == TranslateAll(ps)
  {
    StripRender(ps, AllowList);
    KeptWellFormed(ps, AllowList);
    TableIsTagTable();
    StrReplaceRender(TagSearch, TagReplace, Kept(ps, AllowList));
    TranslateKept(ps);
  }

  /** Text without `<`, or a tag that is either one of the six literals or
      not allowed at all. */
  predicate PlainPiece(p: Piece) {
    match p
    case Text(t) => PlainText(t)
    case Tag(inner) => TagCode(inner).Some? || TagName("<" + inner + ">") !in AllowedNames
  }

  lemma {:induction false} TranslateAllNoLt(ps: seq<Piece>)
    requires forall i :: 0 <= i < |ps| ==> WellFormedPiece(ps[i]) && PlainPiece(ps[i])
    ensures forall k :: 0 <= k < |TranslateAll(ps)| ==> TranslateAll(ps)[k] != '<'
    decreases |ps|
  {
    if ps != [] {
      assert WellFormedPiece(ps[0]) && PlainPiece(ps[0]);
      TranslateAllNoLt(ps[1..]);
      var head := Translate(ps[0]);
      var tail := TranslateAll(ps[1..]);
      assert TranslateAll(ps) == head + tail;
      forall k | 0 <= k < |head + tail| ensures (head + tail)[k] != '<' {
        if k >= |head| {
          assert (head + tail)[k] == tail[k - |head|];
        }
      }
    }
  }

  /** When the text holds no `<` and every tag is one of the six literals or
      a tag the strip stage removes, the output holds no `<`. */
  lemma NoLtForPlainTags(ps: seq<Piece>)
    requires forall i :: 0 <= i < |ps| ==> WellFormedPiece(ps[i]) && PlainPiece(ps[i])
    ensures forall k :: 0 <= k < |Html2EscPos(Render(ps))| ==> Html2EscPos(Render(ps))[k] != '<'
  {
    Html2EscPosPieces(ps);
    TranslateAllNoLt(ps);
  }

  // ---------------------------------------------------------------------------
  // Worked inputs

  lemma ConcatMap3(f: Piece -> string, a: Piece, b: Piece, c: Piece)
    ensures ConcatMap(f, [a, b, c]) == f(a) + f(b) + f(c)
  {
    assert [c][1..] == [];
    assert ConcatMap(f, [c]) == f(c);
    assert [b, c][1..] == [c];
    assert ConcatMap(f, [b, c]) == f(b) + f(c);
    assert [a, b, c][1..] == [b, c];
    assert ConcatMap(f, [a, b, c]) == f(a) + (f(b) + f(c));
  }

  lemma ConcatMap4(f: Piece -> string, a: Piece, b: Piece, c: Piece, d: Piece)
    ensures ConcatMap(f, [a, b, c, d]) == f(a) + f(b) + f(c) + f(d)
  {
    ConcatMap3(f, b, c, d);
    assert [a, b, c, d][1..] == [b, c, d];
    assert ConcatMap(f, [a, b, c, d]) == f(a) + (f(b) + f(c) + f(d));
  }

  /** The translation theorem for an input of three pieces. */
  lemma ThreePieces(a: Piece, b: Piece, c: Piece,
                    sa: string, sb: string, sc: string, ta: string, tb: string, tc: string)
    requires WellFormedPiece(a) && PieceString(a) == sa && Translate(a) == ta
    requires WellFormedPiece(b) && PieceString(b) == sb && Translate(b) == tb
    requires WellFormedPiece(c) && PieceString(c) == sc && Translate(c) == tc
    ensures Html2EscPos(sa + sb + sc) == ta + tb + tc
  {
    var ps := [a, b, c];
    assert WellFormed(ps);
    ConcatMap3(PieceString, a, b, c);
    ConcatMap3(Translate, a, b, c);
    Html2EscPosPieces(ps);
  }

  /** The translation theorem for an input of four pieces. */
  lemma FourPieces(a: Piece, b: Piece, c: Piece, d: Piece,
                   sa: string, sb: string, sc: string, sd: string,
                   ta: string, tb: string, tc: string, td: string)
    requires WellFormedPiece(a) && PieceString(a) == sa && Translate(a) == ta
    requires WellFormedPiece(b) && PieceString(b) == sb && Translate(b) == tb
    requires WellFormedPiece(c) && PieceString(c) == sc && Translate(c) == tc
    requires WellFormedPiece(d) && PieceString(d) == sd && Translate(d) == td
    ensures Html2EscPos(sa + sb + sc + sd) == ta + tb + tc + td
  {
    var ps := [a, b, c, d];
    assert WellFormed(ps);
    ConcatMap4(PieceString, a, b, c, d);
    ConcatMap4(Translate, a, b, c, d);
    Html2EscPosPieces(ps);
  }

  // Tags used below: each is well formed, renders as written and
  // translates as stated.

  lemma BoldTags()
    ensures WellFormedPiece(Tag("b")) && PieceString(Tag("b")) == "<b>" && Translate(Tag("b")) == BoldOn
    ensures WellFormedPiece(Tag("/b")) && PieceString(Tag("/b")) == "</b>" && Translate(Tag("/b")) == BoldOff
  {
    BoldTagNames();
  }

  lemma StrongOpenTag()
    ensures WellFormedPiece(Tag("strong")) && PieceString(Tag("strong")) == "<strong>"
    ensures Translate(Tag("strong")) == BoldOn
  {
    StrongOpenName();
  }

  lemma StrongCloseTag()
    ensures WellFormedPiece(Tag("/strong")) && PieceString(Tag("/strong")) == "</strong>"
    ensures Translate(Tag("/strong")) == BoldOff
  {
    StrongCloseName();
  }

  lemma UnderlineTags()
    ensures WellFormedPiece(Tag("u")) && PieceString(Tag("u")) == "<u>" && Translate(Tag("u")) == UnderlineOn
    ensures WellFormedPiece(Tag("/u")) && PieceString(Tag("/u")) == "</u>" && Translate(Tag("/u")) == UnderlineOff
  {
    UnderlineOpenTag();
    UnderlineCloseTag();
  }

  lemma UnderlineOpenTag()
    ensures WellFormedPiece(Tag("u")) && PieceString(Tag("u")) == "<u>" && Translate(Tag("u")) == UnderlineOn
  {
    assert TagName("<u>") == "u";
  }

  lemma UnderlineCloseTag()
    ensures WellFormedPiece(Tag("/u")) && PieceString(Tag("/u")) == "</u>" && Translate(Tag("/u")) == UnderlineOff
  {
    assert TagName("</u>") == "u";
  }

  lemma ItalicTags()
    ensures WellFormedPiece(Tag("i")) && PieceString(Tag("i")) == "<i>" && Translate(Tag("i")) == []
    ensures WellFormedPiece(Tag("/i")) && PieceString(Tag("/i")) == "</i>" && Translate(Tag("/i")) == []
  {
    ItalicOpenTag();
    ItalicCloseTag();
  }

  lemma ItalicOpenTag()
    ensures WellFormedPiece(Tag("i")) && PieceString(Tag("i")) == "<i>" && Translate(Tag("i")) == []
  {
    assert TagName("<i>") == "i";
  }

  lemma ItalicCloseTag()
    ensures WellFormedPiece(Tag("/i")) && PieceString(Tag("/i")) == "</i>" && Translate(Tag("/i")) == []
  {
    assert TagName("</i>") == "i";
  }

  lemma UpperBoldTags()
    ensures WellFormedPiece(Tag("B")) && PieceString(Tag("B")) == "<B>" && Translate(Tag("B")) == "<B>"
    ensures WellFormedPiece(Tag("/B")) && PieceString(Tag("/B")) == "</B>" && Translate(Tag("/B")) == "</B>"
  {
    assert TagName("<B>") == "b" && TagName("</B>") == "b";
  }

  lemma AttributedBoldTag()
    ensures WellFormedPiece(Tag("b class=x")) && PieceString(Tag("b class=x")) == "<b class=x>"
    ensures Translate(Tag("b class=x")) == "<b class=x>"
  {
    assert TagName("<b class=x>") == "b";
  }

  /** No search string `<x...` with x not white space occurs in text whose
      every `<` is followed by white space. */
  lemma {:induction false} LooseNoTag(q: string, t: string)
    requires |q| >= 2 && q[0] == '<' && !IsSpace(q[1]) && LooseText(t)
    ensures !Occurs(q, t)
    decreases |t|
  {
    if t != [] {
      assert !(q <= t);
      LooseTail(t);
      LooseNoTag(q, t[1..]);
    }
  }

  /** Text without tags passes through unchanged, including a `<` that is
      followed by white space; CR LF line endings are not normalised. */
  lemma TextUnchanged(t: string)
    requires LooseText(t)
    ensures Html2EscPos(t) == t
  {
    StripText(t, [], AllowList);
    assert t + [] == t;
    LooseNoTag("<b>", t);
    LooseNoTag("<strong>", t);
    LooseNoTag("</b>", t);
    LooseNoTag("</strong>", t);
    LooseNoTag("<u>", t);
    LooseNoTag("</u>", t);
    StrReplaceAbsent(TagSearch, TagReplace, t);
  }

  /** A `<` followed by white space does not open a tag. */
  lemma ExampleSpacedLt()
    ensures Html2EscPos("a < b") == "a < b"
  {
    var t := "a < b";
    assert t[2] == '<' && IsSpace(t[3]);
    TextUnchanged(t);
  }

  /** Nor does it when a `>` follows later: "< i>" is text, not a tag. */
  lemma SpacedTagKept(x: string)
    requires LooseText(x)
    ensures Html2EscPos("< i>" + x) == "< i>" + x
  {
    var t := "< i>" + x;
    assert LooseText(t) by {
      forall k | 0 <= k < |t| ensures t[k] != Nul {
        if k >= 4 {
          assert t[k] == x[k - 4];
        }
      }
      forall k | 0 <= k < |t| - 1 ensures t[k] == '<' ==> IsSpace(t[k + 1]) {
        if k >= 4 {
          assert t[k] == x[k - 4];
        }
      }
      if |x| > 0 {
        assert t[|t| - 1] == x[|x| - 1];
      }
    }
    TextUnchanged(t);
  }

  /** A <b> ... </b> span followed by more text: the tags become the
      emphasis commands and the text stays in place. */
  lemma BoldSpan(x: string, y: string)
    requires LooseText(x) && LooseText(y)
    ensures Html2EscPos("<b>" + x + "</b>" + y) == BoldOn + x + BoldOff + y
  {
    BoldTags();
    FourPieces(Tag("b"), Text(x), Tag("/b"), Text(y), "<b>", x, "</b>", y, BoldOn, x, BoldOff, y);
  }

  /** <strong> gives the same commands as <b>. */
  lemma StrongSpan(x: string, y: string)
    requires LooseText(x) && LooseText(y)
    ensures Html2EscPos("<strong>" + x + "</strong>" + y) == BoldOn + x + BoldOff + y
  {
    StrongOpenTag();
    StrongCloseTag();
    FourPieces(Tag("strong"), Text(x), Tag("/strong"), Text(y), "<strong>", x, "</strong>", y, BoldOn, x, BoldOff, y);
  }

  lemma UnderlineSpan(x: string, y: string)
    requires LooseText(x) && LooseText(y)
    ensures Html2EscPos("<u>" + x + "</u>" + y) == UnderlineOn + x + UnderlineOff + y
  {
    UnderlineTags();
    FourPieces(Tag("u"), Text(x), Tag("/u"), Text(y), "<u>", x, "</u>", y, UnderlineOn, x, UnderlineOff, y);
  }

  /** A <b>, <strong> or <u> span gives exactly what the bold or underline
      filter gives for its text. */
  lemma TagsMatchFilters(x: string, y: string)
    requires LooseText(x) && LooseText(y)
    ensures Html2EscPos("<b>" + x + "</b>" + y) == Filter(Bold, x) + y
    ensures Html2EscPos("<strong>" + x + "</strong>" + y) == Filter(Bold, x) + y
    ensures Html2EscPos("<u>" + x + "</u>" + y) == Filter(Underline, x) + y
  {
    BoldBytes(x);
    UnderlinesDiffer(x);
    BoldSpan(x, y);
    StrongSpan(x, y);
    UnderlineSpan(x, y);
  }

  /** A closing tag without an opening one still yields the exit command. */
  lemma LoneClosingTag(x: string, y: string)
    requires LooseText(x) && LooseText(y)
    ensures Html2EscPos(x + "</b>" + y) == x + BoldOff + y
  {
    BoldTags();
    ThreePieces(Text(x), Tag("/b"), Text(y), x, "</b>", y, x, BoldOff, y);
  }

  /** A tag not on the allow list disappears and its text stays. */
  lemma DisallowedTagDropped(x: string)
    requires LooseText(x)
    ensures Html2EscPos("<i>" + x + "</i>") == x
  {
    ItalicTags();
    ThreePieces(Tag("i"), Text(x), Tag("/i"), "<i>", x, "</i>", [], x, []);
    assert [] + x + [] == x;
  }

  /** Upper-case spellings pass the strip stage, which ignores case, but
      match no search string, which does not: they reach the output as
      written. */
  lemma UpperCaseTagsKept(x: string)
    requires LooseText(x)
    ensures Html2EscPos("<B>" + x + "</B>") == "<B>" + x + "</B>"
  {
    UpperBoldTags();
    ThreePieces(Tag("B"), Text(x), Tag("/B"), "<B>", x, "</B>", "<B>", x, "</B>");
  }

  /** An allowed tag with attributes is kept as written, while its plain
      closing tag is replaced. */
  lemma AttributedTagKept(x: string)
    requires LooseText(x)
    ensures Html2EscPos("<b class=x>" + x + "</b>") == "<b class=x>" + x + BoldOff
  {
    AttributedBoldTag();
    BoldTags();
    ThreePieces(Tag("b class=x"), Text(x), Tag("/b"), "<b class=x>", x, "</b>", "<b class=x>", x, BoldOff);
  }


  /** The receipt line "<b>Total</b>: 10". */
  lemma ExampleTotal()
    ensures Html2EscPos("<b>Total</b>: 10") == BoldOn + "Total" + BoldOff + ": 10"
  {
    var x, y := "Total", ": 10";
    assert "<b>" + x + "</b>" + y == "<b>Total</b>: 10";
    assert PlainText(x) && PlainText(y);
    BoldSpan(x, y);
  }

  /** A `<` followed by white space inside a bold span stays text. */
  lemma ExampleBoldComparison()
    ensures Html2EscPos("<b>1 < 2</b>") == BoldOn + "1 < 2" + BoldOff
  {
    var x, y := "1 < 2", "";
    assert "<b>" + x + "</b>" + y == "<b>1 < 2</b>";
    assert BoldOn + x + BoldOff + y == BoldOn + x + BoldOff;
    assert x[2] == '<' && IsSpace(x[3]);
    BoldSpan(x, y);
  }

  lemma ExampleCrLf()
    ensures Html2EscPos("a\r\nb") == "a\r\nb"
  {
    TextUnchanged("a\r\nb");
  }
}
