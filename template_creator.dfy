/** The `chr` Twig function of TemplateCreator, and the byte strings the
    filters build from it. PHP's `chr` reduces its integer argument to the
    range 0..255 by a bitwise and with 255; on the two's-complement integers
    PHP uses this is the non-negative remainder modulo 256, which is what
    Dafny's `%` computes, negative arguments included. */
module TemplateCreator {
  import opened EscPos
  import opened Markup

  /** `chr($i)`: a one-character string whose code is `i` reduced modulo 256. */
  function Chr(i: int): (r: string)
    ensures |r| == 1 && 0 <= r[0] as int < 256
    ensures 0 <= i < 256 ==> r[0] as int == i
    ensures (r[0] as int - i) % 256 == 0
  {
    [(i % 256) as char]
  }

  /** `chr` is one-to-one on the byte range: distinct bytes give distinct strings. */
  lemma ChrInjective(i: int, j: int)
    requires 0 <= i < 256 && 0 <= j < 256
    ensures Chr(i) == Chr(j) <==> i == j
  {
    if Chr(i) == Chr(j) {
      assert Chr(i)[0] == Chr(j)[0];
    }
  }

  /** Arguments that differ by a multiple of 256 give the same character, so
      for instance chr(-1) and chr(255) agree. */
  lemma ChrPeriodic(i: int, k: int)
    ensures Chr(i + 256 * k) == Chr(i)
  {
    assert (i + 256 * k) % 256 == i % 256;
  }

  /** Out-of-range arguments wrap around. */
  lemma ChrWraps()
    ensures Chr(-1) == Chr(255) && Chr(256) == Chr(0) && Chr(283) == Chr(27)
  {
    ChrPeriodic(255, -1);
    ChrPeriodic(0, 1);
    ChrPeriodic(27, 1);
  }

  /** The escape character of every command is chr(27). */
  lemma ChrEsc()
    ensures Chr(27) == [Esc]
  {
  }

  /** chr(27) followed by two characters is a three-byte command. */
  lemma ChrCommand(c: char, d: char)
    ensures Chr(27) + [c, d] == [Esc, c, d]
  {
    ChrEsc();
  }

  /** A command pair built with chr(27) around `s`, with `lf` before the
      closing command. */
  lemma ChrWrap(c: char, on: char, off: char, s: string, lf: string)
    ensures Chr(27) + [c, on] + s + lf + Chr(27) + [c, off] == [Esc, c, on] + s + lf + [Esc, c, off]
  {
    ChrCommand(c, on);
    ChrCommand(c, off);
  }

  /** bold, underline and underlineheavy are chr(27) and a command letter
      with digit 1 or 2, the argument, then chr(27), the letter and digit 0. */
  lemma FiltersFromChr(s: string)
    ensures Filter(Bold, s) == Chr(27) + "E1" + s + Chr(27) + "E0"
    ensures Filter(Underline, s) == Chr(27) + "-1" + s + Chr(27) + "-0"
    ensures Filter(UnderlineHeavy, s) == Chr(27) + "-2" + s + Chr(27) + "-0"
  {
    BoldBytes(s);
    UnderlinesDiffer(s);
    assert Chr(27) + "E1" + s + "" == Chr(27) + "E1" + s;
    assert Chr(27) + "-1" + s + "" == Chr(27) + "-1" + s;
    assert Chr(27) + "-2" + s + "" == Chr(27) + "-2" + s;
    assert [Esc, 'E', '1'] + s + "" == [Esc, 'E', '1'] + s;
    assert [Esc, '-', '1'] + s + "" == [Esc, '-', '1'] + s;
    assert [Esc, '-', '2'] + s + "" == [Esc, '-', '2'] + s;
    ChrWrap('E', '1', '0', s, "");
    ChrWrap('-', '1', '0', s, "");
    ChrWrap('-', '2', '0', s, "");
  }

  /** center, right and fontB have the same shape with a line feed before
      the closing command. */
  lemma LineFiltersFromChr(s: string)
    ensures Filter(Center, s) == Chr(27) + "a1" + s + "\n" + Chr(27) + "a0"
    ensures Filter(Right, s) == Chr(27) + "a2" + s + "\n" + Chr(27) + "a0"
    ensures Filter(FontB, s) == Chr(27) + "M1" + s + "\n" + Chr(27) + "M0"
  {
    LineEndingFilters(s);
    ChrWrap('a', '1', '0', s, "\n");
    ChrWrap('a', '2', '0', s, "\n");
    ChrWrap('M', '1', '0', s, "\n");
  }

  /** The replacement array of `html2escpos`, written with chr(27). */
  lemma TagReplaceFromChr()
    ensures TagReplace == [Chr(27) + "E1", Chr(27) + "E1", Chr(27) + "E0", Chr(27) + "E0", Chr(27) + "-1", Chr(27) + "-0"]
  {
    ChrCommand('E', '1');
    ChrCommand('E', '0');
    ChrCommand('-', '1');
    ChrCommand('-', '0');
  }
}
