/** What trimming removes: the white space and line terminators of ECMAScript. */
module Whitespace {

  predicate IsSpace(c: char) {
    var n := c as int;
    || 0x9 <= n <= 0xD || n in {0x20, 0xA0, 0x1680, 0x2028, 0x2029, 0x202F, 0x205F, 0x3000, 0xFEFF}
    || 0x2000 <= n <= 0x200A
  }

  /** Character by character: sections 12.2 and 12.3 of ECMA-262, with the space separators of Unicode. */
  lemma SpacesAre(c: char)
    ensures IsSpace(c) <==>
            || c in "\t\U{000B}\U{000C} \U{00A0}\U{FEFF}"
            || c in "\n\r\U{2028}\U{2029}"
            || c in "\U{1680}\U{2000}\U{2001}\U{2002}\U{2003}\U{2004}\U{2005}\U{2006}\U{2007}\U{2008}\U{2009}\U{200A}"
            || c in "\U{202F}\U{205F}\U{3000}"
  {
    if 0x2000 <= c as int <= 0x200A {
      Within(c);
    }
  }

  lemma Within(c: char)
    requires 0x2000 <= c as int <= 0x200A
    ensures c in "\U{2000}\U{2001}\U{2002}\U{2003}\U{2004}\U{2005}\U{2006}\U{2007}\U{2008}\U{2009}\U{200A}"
  {
  }

  /** Text that is empty once trimmed. */
  predicate Blank(text: string) {
    forall i {:trigger text[i]} :: 0 <= i < |text| ==> IsSpace(text[i])
  }

  lemma BlankIs(text: string)
    ensures Blank(text) <==> text == "" || (IsSpace(text[0]) && Blank(text[1..]))
    ensures Blank(text) ==> forall c :: c in text ==> IsSpace(c)
  {
    if text != "" {
      assert forall i :: 1 <= i < |text| ==> text[i] == text[1..][i - 1];
    }
  }
}
