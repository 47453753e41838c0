// Texts as JavaScript sees them: sequences of UTF-16 code units.
module Texts {

  type Utf16 = u: int | 0 <= u < 0x1_0000

  type Text = seq<Utf16>

  predicate High(u: Utf16) { 0xD800 <= u <= 0xDBFF }

  predicate Low(u: Utf16) { 0xDC00 <= u <= 0xDFFF }

  // The six leading bits tell surrogates.
  lemma SurrogatesExactly(u: Utf16)
    ensures High(u) <==> u / 0x400 == 0x36
    ensures Low(u) <==> u / 0x400 == 0x37
  {
  }
}
