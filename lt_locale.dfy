/**
  The count-dependent messages of the Lithuanian translation
  (quartz/i18n/locales/lt-LT.ts). Lithuanian nouns take one form for a
  count of one, a nominative plural for small counts and a genitive plural
  for ten and more; the translation picks the band with `count === 1` and
  `count < 10`, and writes the count with a template literal.
*/
module LithuanianLocale {
  import opened Wrappers
  import opened Strings

  predicate EndsWith(s: string, t: string) {
    |t| <= |s| && s[|s| - |t|..] == t
  }

  /** Only the last part of a text decides a suffix no longer than that part. */
  lemma EndsWithLast(a: string, b: string, t: string)
    requires |t| <= |b|
    ensures EndsWith(a + b, t) <==> EndsWith(b, t)
  {
    assert (a + b)[|a + b| - |t|..] == b[|b| - |t|..];
  }

  /**
    The choice every three-band message makes: a fixed text at one; below
    ten the opening words, the count and the nominative plural; from ten on
    the same with the genitive plural.
  */
  function Counted(count: int, one: string, opening: string, few: string, many: string): string {
    if count == 1 then one
    else if count < 10 then opening + IntStr(count) + few
    else opening + IntStr(count) + many
  }

  /** `pages.rss.lastFewNotes`. */
  function LastFewNotes(count: int): string {
    Counted(count, "Paskutinis 1 užrašas", "Paskutiniai ", " užrašai", " užrašų")
  }

  /** `pages.folderContent.itemsUnderFolder`. */
  function ItemsUnderFolder(count: int): string {
    Counted(count, "1 elementas šiame aplanke.", "", " elementai šiame aplanke.", " elementų šiame aplanke.")
  }

  /** `pages.tagContent.itemsUnderTag`. */
  function ItemsUnderTag(count: int): string {
    Counted(count, "1 elementas su šia žyma.", "", " elementai su šia žyma.", " elementų su šia žyma.")
  }

  /** `pages.tagContent.showingFirst`: two bands only. */
  function ShowingFirst(count: int): string {
    if count < 10 then "Rodomos pirmosios " + IntStr(count) + " žymos."
    else "Rodomos pirmosios " + IntStr(count) + " žymų."
  }

  /** `pages.tagContent.totalTags`. */
  function TotalTags(count: int): string {
    Counted(count, "Rasta iš viso 1 žyma.", "Rasta iš viso ", " žymos.", " žymų.")
  }

  // ---------------------------------------------------------------------------
  // The noun form tells the band
  // ---------------------------------------------------------------------------

  /**
    When each of the three texts ends in its own word and in neither of the
    other two, the word a message ends in tells the band of the count.
  */
  lemma CountedBands(count: int, one: string, opening: string, few: string, many: string,
                     wOne: string, wFew: string, wMany: string)
    requires DistinctEndings(one, few, many, wOne, wFew, wMany)
    ensures EndsWith(Counted(count, one, opening, few, many), wOne) <==> count == 1
    ensures EndsWith(Counted(count, one, opening, few, many), wFew) <==> count != 1 && count < 10
    ensures EndsWith(Counted(count, one, opening, few, many), wMany) <==> count >= 10
  {
    if count != 1 {
      var a := opening + IntStr(count);
      var b := if count < 10 then few else many;
      EndsWithLast(a, b, wOne);
      EndsWithLast(a, b, wFew);
      EndsWithLast(a, b, wMany);
    }
  }

  /** The words that end the texts of `Counted`, each in its own text only. */
  predicate DistinctEndings(one: string, few: string, many: string, wOne: string, wFew: string, wMany: string) {
    && EndsWith(one, wOne) && !EndsWith(one, wFew) && !EndsWith(one, wMany)
    && |wOne| <= |few| && |wFew| <= |few| && |wMany| <= |few|
    && |wOne| <= |many| && |wFew| <= |many| && |wMany| <= |many|
    && EndsWith(few, wFew) && !EndsWith(few, wOne) && !EndsWith(few, wMany)
    && EndsWith(many, wMany) && !EndsWith(many, wOne) && !EndsWith(many, wFew)
  }

  /** The singular only at one, the nominative plural below ten (zero and negatives too), the genitive from ten on. */
  lemma LastFewNotesBands(count: int)
    ensures EndsWith(LastFewNotes(count), "užrašas") <==> count == 1
    ensures EndsWith(LastFewNotes(count), "užrašai") <==> count != 1 && count < 10
    ensures EndsWith(LastFewNotes(count), "užrašų") <==> count >= 10
  {
    assert DistinctEndings("Paskutinis 1 užrašas", " užrašai", " užrašų", "užrašas", "užrašai", "užrašų");
    CountedBands(count, "Paskutinis 1 užrašas", "Paskutiniai ", " užrašai", " užrašų", "užrašas", "užrašai", "užrašų");
  }

  /** A text does not end in a word when they differ at the `j`-th character from the end. */
  lemma DiffersFromEnd(s: string, t: string, j: nat)
    requires j < |t| <= |s| && s[|s| - 1 - j] != t[|t| - 1 - j]
    ensures !EndsWith(s, t)
  {
    assert s[|s| - |t|..][|t| - 1 - j] == s[|s| - 1 - j];
  }

  /** The nouns of the three folder texts differ 15 characters from the end. */
  lemma FolderEndings()
    ensures DistinctEndings("1 elementas šiame aplanke.", " elementai šiame aplanke.", " elementų šiame aplanke.",
      "elementas šiame aplanke.", "elementai šiame aplanke.", "elementų šiame aplanke.")
  {
    var one, few, many := "1 elementas šiame aplanke.", " elementai šiame aplanke.", " elementų šiame aplanke.";
    var wOne, wFew, wMany := "elementas šiame aplanke.", "elementai šiame aplanke.", "elementų šiame aplanke.";
    assert one[2..] == wOne;
    assert few[1..] == wFew;
    assert many[1..] == wMany;
    DiffersFromEnd(one, wFew, 15);
    DiffersFromEnd(one, wMany, 15);
    DiffersFromEnd(few, wOne, 15);
    DiffersFromEnd(few, wMany, 15);
    DiffersFromEnd(many, wOne, 15);
    DiffersFromEnd(many, wFew, 15);
  }

  lemma ItemsUnderFolderBands(count: int)
    ensures EndsWith(ItemsUnderFolder(count), "elementas šiame aplanke.") <==> count == 1
    ensures EndsWith(ItemsUnderFolder(count), "elementai šiame aplanke.") <==> count != 1 && count < 10
    ensures EndsWith(ItemsUnderFolder(count), "elementų šiame aplanke.") <==> count >= 10
  {
    FolderEndings();
    CountedBands(count, "1 elementas šiame aplanke.", "", " elementai šiame aplanke.", " elementų šiame aplanke.",
      "elementas šiame aplanke.", "elementai šiame aplanke.", "elementų šiame aplanke.");
  }

  /** The nouns of the three tag texts differ 13 characters from the end. */
  lemma TagEndings()
    ensures DistinctEndings("1 elementas su šia žyma.", " elementai su šia žyma.", " elementų su šia žyma.",
      "elementas su šia žyma.", "elementai su šia žyma.", "elementų su šia žyma.")
  {
    var one, few, many := "1 elementas su šia žyma.", " elementai su šia žyma.", " elementų su šia žyma.";
    var wOne, wFew, wMany := "elementas su šia žyma.", "elementai su šia žyma.", "elementų su šia žyma.";
    assert one[2..] == wOne;
    assert few[1..] == wFew;
    assert many[1..] == wMany;
    DiffersFromEnd(one, wFew, 13);
    DiffersFromEnd(one, wMany, 13);
    DiffersFromEnd(few, wOne, 13);
    DiffersFromEnd(few, wMany, 13);
    DiffersFromEnd(many, wOne, 13);
    DiffersFromEnd(many, wFew, 13);
  }

  lemma ItemsUnderTagBands(count: int)
    ensures EndsWith(ItemsUnderTag(count), "elementas su šia žyma.") <==> count == 1
    ensures EndsWith(ItemsUnderTag(count), "elementai su šia žyma.") <==> count != 1 && count < 10
    ensures EndsWith(ItemsUnderTag(count), "elementų su šia žyma.") <==> count >= 10
  {
    TagEndings();
    CountedBands(count, "1 elementas su šia žyma.", "", " elementai su šia žyma.", " elementų su šia žyma.",
      "elementas su šia žyma.", "elementai su šia žyma.", "elementų su šia žyma.");
  }

  /** `showingFirst` has no singular: a count of one takes the plural `žymos`. */
  lemma ShowingFirstBands(count: int)
    ensures EndsWith(ShowingFirst(count), "žymos.") <==> count < 10
    ensures EndsWith(ShowingFirst(count), "žymų.") <==> count >= 10
    ensures ShowingFirst(1) == "Rodomos pirmosios 1 žymos."
  {
    var s := if count < 10 then " žymos." else " žymų.";
    EndsWithLast("Rodomos pirmosios " + IntStr(count), s, "žymos.");
    EndsWithLast("Rodomos pirmosios " + IntStr(count), s, "žymų.");
  }

  lemma TotalTagsBands(count: int)
    ensures EndsWith(TotalTags(count), "žyma.") <==> count == 1
    ensures EndsWith(TotalTags(count), "žymos.") <==> count != 1 && count < 10
    ensures EndsWith(TotalTags(count), "žymų.") <==> count >= 10
  {
    assert DistinctEndings("Rasta iš viso 1 žyma.", " žymos.", " žymų.", "žyma.", "žymos.", "žymų.");
    CountedBands(count, "Rasta iš viso 1 žyma.", "Rasta iš viso ", " žymos.", " žymų.", "žyma.", "žymos.", "žymų.");
  }

  /** Away from one, `showingFirst` and `totalTags` agree on the form of `žyma`; at one they differ. */
  lemma TagFormsAgree(count: int)
    ensures count != 1 ==> (EndsWith(ShowingFirst(count), "žymų.") <==> EndsWith(TotalTags(count), "žymų."))
    ensures count != 1 ==> (EndsWith(ShowingFirst(count), "žymos.") <==> EndsWith(TotalTags(count), "žymos."))
    ensures EndsWith(ShowingFirst(1), "žymos.") && !EndsWith(TotalTags(1), "žymos.")
  {
    ShowingFirstBands(count);
    TotalTagsBands(count);
    ShowingFirstBands(1);
    TotalTagsBands(1);
  }

  // ---------------------------------------------------------------------------
  // The count is written in every band
  // ---------------------------------------------------------------------------

  /** Past the opening words, `parseInt` gives back any count other than one. */
  lemma CountedReadBack(count: nat, one: string, opening: string, few: string, many: string)
    requires few != [] && !IsDigit(few[0]) && many != [] && !IsDigit(many[0])
    requires count != 1
    ensures ParseInt10(Counted(count, one, opening, few, many)[|opening|..]) == Some(count)
  {
    var b := if count < 10 then few else many;
    assert (opening + IntStr(count) + b)[|opening|..] == IntStr(count) + b;
    ParseIntStr(count, b);
  }

  /** `parseInt` on the folder message gives back the count. */
  lemma FolderCountReadBack(count: nat)
    ensures ParseInt10(ItemsUnderFolder(count)) == Some(count)
  {
    if count == 1 {
      assert ItemsUnderFolder(1) == IntStr(1) + " elementas šiame aplanke.";
      ParseIntStr(1, " elementas šiame aplanke.");
    } else {
      CountedReadBack(count, "1 elementas šiame aplanke.", "", " elementai šiame aplanke.", " elementų šiame aplanke.");
    }
  }

  /** `parseInt` on the tag message gives back the count. */
  lemma TagItemsCountReadBack(count: nat)
    ensures ParseInt10(ItemsUnderTag(count)) == Some(count)
  {
    if count == 1 {
      assert ItemsUnderTag(1) == IntStr(1) + " elementas su šia žyma.";
      ParseIntStr(1, " elementas su šia žyma.");
    } else {
      CountedReadBack(count, "1 elementas su šia žyma.", "", " elementai su šia žyma.", " elementų su šia žyma.");
    }
  }

  /** After `Rodomos pirmosios `, `parseInt` gives back the count. */
  lemma ShowingFirstCountReadBack(count: nat)
    ensures ParseInt10(ShowingFirst(count)[|"Rodomos pirmosios "|..]) == Some(count)
  {
    var s := if count < 10 then " žymos." else " žymų.";
    assert ShowingFirst(count)[|"Rodomos pirmosios "|..] == IntStr(count) + s;
    ParseIntStr(count, s);
  }

  /** After `Rasta iš viso `, `parseInt` gives back the count. */
  lemma TotalTagsCountReadBack(count: nat)
    ensures ParseInt10(TotalTags(count)[|"Rasta iš viso "|..]) == Some(count)
  {
    if count == 1 {
      assert TotalTags(1)[|"Rasta iš viso "|..] == IntStr(1) + " žyma.";
      ParseIntStr(1, " žyma.");
    } else {
      CountedReadBack(count, "Rasta iš viso 1 žyma.", "Rasta iš viso ", " žymos.", " žymų.");
    }
  }

  /** After `Paskutinis ` (one) or `Paskutiniai ` (any other count), `parseInt` gives back the count. */
  lemma LastFewNotesCountReadBack(count: nat)
    ensures count == 1 ==> ParseInt10(LastFewNotes(count)[|"Paskutinis "|..]) == Some(1)
    ensures count != 1 ==> ParseInt10(LastFewNotes(count)[|"Paskutiniai "|..]) == Some(count)
  {
    if count == 1 {
      assert LastFewNotes(1)[|"Paskutinis "|..] == IntStr(1) + " užrašas";
      ParseIntStr(1, " užrašas");
    } else {
      CountedReadBack(count, "Paskutinis 1 užrašas", "Paskutiniai ", " užrašai", " užrašų");
    }
  }
}
