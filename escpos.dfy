/** The wrapping filters of EscPosTemplateCreator: each surrounds its
    argument with an ESC/POS "enter" command and the matching "exit"
    command; the alignment and font filters end the line before the exit
    command. Every command is ESC followed by a letter and an ASCII digit. */
module EscPos {

  datatype Option<T> = None | Some(value: T)

  /** The escape byte, chr(27). */
  const Esc: char := 27 as char

  /** One Twig filter per marker. */
  datatype Marker = Bold | Underline | UnderlineHeavy | Center | Right | FontB

  /** The name each filter is registered under. */
  function FilterName(m: Marker): string {
    match m
    case Bold => "bold"
    case Underline => "underline"
    case UnderlineHeavy => "underlineheavy"
    case Center => "center"
    case Right => "right"
    case FontB => "fontB"
  }

  /** Filter lookup by name; a name no filter is registered under gives None. */
  function MarkerNamed(name: string): (r: Option<Marker>)
    ensures r.Some? ==> FilterName(r.value) == name
    ensures r.None? ==> forall m :: FilterName(m) != name
  {
    if name == "bold" then Some(Bold)
    else if name == "underline" then Some(Underline)
    else if name == "underlineheavy" then Some(UnderlineHeavy)
    else if name == "center" then Some(Center)
    else if name == "right" then Some(Right)
    else if name == "fontB" then Some(FontB)
    else None
  }

  /** ESC E n (emphasis), ESC - n (underline), ESC a n (justification),
      ESC M n (character font), with the digit that switches the mode on. */
  function EnterCode(m: Marker): string {
    match m
    case Bold => [Esc, 'E', '1']
    case Underline => [Esc, '-', '1']
    case UnderlineHeavy => [Esc, '-', '2']
    case Center => [Esc, 'a', '1']
    case Right => [Esc, 'a', '2']
    case FontB => [Esc, 'M', '1']
  }

  /** The same command with digit 0, which reverts the mode. */
  function ExitCode(m: Marker): string {
    match m
    case Bold => [Esc, 'E', '0']
    case Underline | UnderlineHeavy => [Esc, '-', '0']
    case Center | Right => [Esc, 'a', '0']
    case FontB => [Esc, 'M', '0']
  }

  /** The filters that put a line feed before their exit command. */
  predicate EndsLine(m: Marker) {
    m == Center || m == Right || m == FontB
  }

  /** What a filter appends after its argument. */
  function Trailer(m: Marker): string {
    (if EndsLine(m) then "\n" else "") + ExitCode(m)
  }

  /** The output of filter `m` applied to `s`. */
  function Filter(m: Marker, s: string): (r: string)
    ensures |r| == |s| + (if EndsLine(m) then 7 else 6)
    ensures r[0] == Esc && r[..3] == EnterCode(m)
    ensures r[3..3 + |s|] == s
    ensures EndsLine(m) ==> r[3 + |s|] == '\n'
    ensures r[|r| - 3..] == ExitCode(m) && r[|r| - 3] == Esc
  {
    EnterCode(m) + s + Trailer(m)
  }

  /** Which marker a three-byte enter command belongs to. */
  function MarkerOfEnter(code: string): Option<Marker> {
    if code == EnterCode(Bold) then Some(Bold)
    else if code == EnterCode(Underline) then Some(Underline)
    else if code == EnterCode(UnderlineHeavy) then Some(UnderlineHeavy)
    else if code == EnterCode(Center) then Some(Center)
    else if code == EnterCode(Right) then Some(Right)
    else if code == EnterCode(FontB) then Some(FontB)
    else None
  }

  /** Recovers the marker and the wrapped text from a filter's output. */
  function Unwrap(t: string): Option<(Marker, string)> {
    if |t| < 3 then None
    else
      match MarkerOfEnter(t[..3])
      case None => None
      case Some(m) =>
        var tail := Trailer(m);
        if |t| >= 3 + |tail| && t[|t| - |tail|..] == tail
        then Some((m, t[3..|t| - |tail|]))
        else None
  }

  /** Every filter name maps back to its filter, and only filter names are known. */
  lemma MarkerNamedFilterName(m: Marker)
    ensures MarkerNamed(FilterName(m)) == Some(m)
  {
  }

  lemma EnterCodeDistinct(m: Marker)
    ensures MarkerOfEnter(EnterCode(m)) == Some(m)
  {
  }

  /** Unwrap inverts every filter. */
  lemma UnwrapFilter(m: Marker, s: string)
    ensures Unwrap(Filter(m, s)) == Some((m, s))
  {
    var t := Filter(m, s);
    EnterCodeDistinct(m);
    assert t[..3] == EnterCode(m);
    var tail := Trailer(m);
    assert t[|t| - |tail|..] == tail;
    assert t[3..|t| - |tail|] == s;
  }

  /** Whatever Unwrap accepts is exactly a filter's output. */
  lemma FilterUnwrap(t: string, m: Marker, s: string)
    requires Unwrap(t) == Some((m, s))
    ensures Filter(m, s) == t
  {
    var tail := Trailer(m);
    assert MarkerOfEnter(t[..3]) == Some(m);
    assert t[..3] == EnterCode(m);
    assert t == t[..3] + t[3..|t| - |tail|] + t[|t| - |tail|..];
  }

  /** Equal outputs come from the same filter and the same argument. */
  lemma FilterInjective(m1: Marker, s1: string, m2: Marker, s2: string)
    requires Filter(m1, s1) == Filter(m2, s2)
    ensures m1 == m2 && s1 == s2
  {
    UnwrapFilter(m1, s1);
    UnwrapFilter(m2, s2);
  }

  /** bold: ESC E 1, the text, ESC E 0. */
  lemma BoldBytes(s: string)
    ensures Filter(Bold, s) == [Esc, 'E', '1'] + s + [Esc, 'E', '0']
    ensures |Filter(Bold, s)| == |s| + 6
  {
  }

  /** underline and underlineheavy differ only in the digit of the enter
      command and share their exit command. */
  lemma UnderlinesDiffer(s: string)
    ensures Filter(Underline, s) == [Esc, '-', '1'] + s + [Esc, '-', '0']
    ensures Filter(UnderlineHeavy, s) == [Esc, '-', '2'] + s + [Esc, '-', '0']
    ensures forall k :: 0 <= k < |s| + 6 && k != 2 ==> Filter(Underline, s)[k] == Filter(UnderlineHeavy, s)[k]
  {
  }

  /** center, right and fontB put a line feed before the exit command;
      center and right share the exit command ESC a 0. */
  lemma LineEndingFilters(s: string)
    ensures Filter(Center, s) == [Esc, 'a', '1'] + s + "\n" + [Esc, 'a', '0']
    ensures Filter(Right, s) == [Esc, 'a', '2'] + s + "\n" + [Esc, 'a', '0']
    ensures Filter(FontB, s) == [Esc, 'M', '1'] + s + "\n" + [Esc, 'M', '0']
    ensures ExitCode(Center) == ExitCode(Right)
  {
    LineEnding(Center, s, [Esc, 'a', '1'], [Esc, 'a', '0']);
    LineEnding(Right, s, [Esc, 'a', '2'], [Esc, 'a', '0']);
    LineEnding(FontB, s, [Esc, 'M', '1'], [Esc, 'M', '0']);
  }

  lemma LineEnding(m: Marker, s: string, enter: string, exit: string)
    requires EndsLine(m) && EnterCode(m) == enter && ExitCode(m) == exit
    ensures Filter(m, s) == enter + s + "\n" + exit
  {
    assert Trailer(m) == "\n" + exit;
  }
}
