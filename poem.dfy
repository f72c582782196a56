/** The poem record and its canonical text rendering. */
module Poems {
  import opened Wrappers
  import opened Text

  /** The range of a C# `int`. */
  newtype int32 = x: int | -0x8000_0000 <= x < 0x8000_0000

  /** A poem. The source's `Poem` is a class with settable properties; here it
      is an immutable value, and an update replaces the whole value. */
  datatype Poem = Poem(title: string, author: string, year: int32, text: string, theme: string)

  /** The first line of a rendering: everything before the text. */
  function Header(p: Poem): (r: string)
    ensures |r| == |p.title| + |p.author| + |IntToDecimal(p.year as int)| + |p.theme| + 34
    ensures r[..7 + |p.title|] == "Title: " + p.title
  {
    "Title: " + p.title + ", Author: " + p.author + ", Year: " + IntToDecimal(p.year as int) + ", Theme: " + p.theme
  }

  /** The rendering used for display and for saved reports. */
  function Render(p: Poem): (r: string)
    ensures |r| == |p.title| + |p.author| + |IntToDecimal(p.year as int)| + |p.theme| + |p.text| + 41
    ensures r[..|Header(p)|] == Header(p)
  {
    Header(p) + "\nText: " + p.text
  }

  predicate NoNewline(s: string) {
    forall i :: 0 <= i < |s| ==> s[i] != '\n'
  }

  /** A rendering starts with the labelled title. */
  lemma RenderStartsWithTitle(p: Poem)
    ensures Render(p)[..7 + |p.title|] == "Title: " + p.title
  {
    var rest := ", Author: " + p.author + ", Year: " + IntToDecimal(p.year as int) + ", Theme: " + p.theme + "\nText: " + p.text;
    assert Render(p) == ("Title: " + p.title) + rest;
  }

  /** A rendering ends with the labelled text, on a line of its own. */
  lemma RenderEndsWithText(p: Poem)
    ensures |Render(p)| >= 7 + |p.text|
    ensures Render(p)[|Render(p)| - 7 - |p.text|..] == "\nText: " + p.text
  {
    assert Render(p) == Header(p) + ("\nText: " + p.text);
  }

  /** The year stands in decimal right after its label, where the title
      and the author end, and reads back as the year. */
  lemma RenderYear(p: Poem)
    ensures var k, y := 25 + |p.title| + |p.author|, IntToDecimal(p.year as int);
      && k + |y| <= |Render(p)|
      && Render(p)[k - 8..k] == ", Year: "
      && Render(p)[k..k + |y|] == y
      && ParseInt(Render(p)[k..k + |y|]) == Some(p.year as int)
  {
    var y := IntToDecimal(p.year as int);
    var front := "Title: " + p.title + ", Author: " + p.author;
    var back := ", Theme: " + p.theme + "\nText: " + p.text;
    assert |front| == 17 + |p.title| + |p.author|;
    assert Render(p) == front + ", Year: " + y + back;
    assert Render(p) == (front + ", Year: ") + y + back;
    IntDecimalRoundTrip(p.year as int);
  }

  /** The decimal rendering of a year holds no line break. */
  lemma DecimalNoNewline(n: int)
    ensures NoNewline(IntToDecimal(n))
  {
    if n < 0 {
      assert IntToDecimal(n) == "-" + NatToDecimal(-n);
    }
  }

  /** A rendering is exactly two lines when the title, author and theme hold
      no line break: the header, then the labelled text. */
  lemma RenderLines(p: Poem)
    requires NoNewline(p.title) && NoNewline(p.author) && NoNewline(p.theme)
    ensures var h := |Header(p)|;
      && h < |Render(p)| && Render(p)[h] == '\n'
      && NoNewline(Render(p)[..h])
      && Render(p)[h + 1..] == "Text: " + p.text
  {
    DecimalNoNewline(p.year as int);
    var h := Header(p);
    assert Render(p) == h + "\n" + ("Text: " + p.text);
    assert Render(p)[..|h|] == h;
    assert NoNewline(h);
  }
}
