/**
  The landing page (quartz/components/Landing.tsx): the top-level content
  folders are collected from the slugs of all files, deduplicated and sorted,
  and each gets a card: the fixed card `CARDS` holds for it, or a card made up
  from the folder name (`NN-Some-Title` gives chapter `NN`, title `Some Title`).

  A card is modelled by what it shows: the folder it links to, the `N` of its
  `card-N` and `card-illustration-N` classes, its title and its subhead; the
  JSX markup and `resolveRelative` are not part of this model. A `CARDS` entry
  is its key together with the card it renders: the key and the link target
  are separate literals in the source, and one entry has them differ.
*/
module Landing {
  import opened Wrappers
  import opened Strings

  datatype Card = Card(link: string, style: int, title: string, subhead: string)

  /** One `CARDS` property: the folder name it is looked up by, and the card it renders. */
  datatype Entry = Entry(key: string, card: Card)

  /** An entry whose card links to the folder it is keyed by. */
  function Keyed(key: string, style: int, title: string, subhead: string): Entry {
    Entry(key, Card(key, style, title, subhead))
  }

  /** `CARDS`, in the order of the object literal. */
  const FixedCards: seq<Entry> := [
    Keyed("01-CPP-Basic", 1, "1. C++ 基础", "章节 01"),
    Keyed("02-CPP-Basic-Function-and-Files", 2, "2. C++ 基础——函数和文件", "章节 02"),
    Keyed("03-Debuging", 3, "3. 调试 C++ 程序", "章节 03"),
    Keyed("04-Basic-Data-Type", 4, "4. 基础数据类型 ", "章节 04"),
    Keyed("05-Operator", 5, "5. 运算符", "章节 05"),
    Keyed("06-Scope", 6, "6. 作用域、生命周期和链接", "章节 06"),
    Keyed("07-Control-Flow-and-Error-Handling", 1, "7. 控制流和错误处理", "章节 07"),
    Keyed("08-Casting-and-Override", 2, "8. 类型转换和函数重载 ", "章节 08"),
    Keyed("09-Reference-and-Pointer", 3, "9. 复合类型-引用和指针 ", "章节 09"),
    Keyed("10-Enum-and-Struct", 4, "10. 复合类型-枚举和结构体 ", "章节 10"),
    Keyed("11-Array-String", 5, "11. 数组，字符串和动态内存分配", "章节 11"),
    Keyed("12-Function", 6, "12. 函数", "章节 12"),
    Keyed("13-OOP", 1, "13. 面向对象编程基础", "章节 13"),
    Keyed("14-Operator-Override", 2, "14. 操作符重载", "章节 14"),
    Keyed("16-Object-Releation", 3, "16. 对象关系简介 ", "章节 16"),
    Keyed("17-Inherit", 4, "17. 继承", "章节 17"),
    Keyed("18-Virtual-Function", 5, "18. 虚函数 ", "章节 18"),
    Keyed("19-Template", 6, "19. 模板和类", "章节 19"),
    Keyed("20-Exception", 1, "20. 异常", "章节 20"),
    Keyed("21-STL", 2, "21. STL ", "章节 21"),
    Keyed("22-STD-String", 3, "22. std 字符串 ", "章节 22"),
    Keyed("23-IO", 4, "23. 输入输出", "章节 23"),
    Keyed("A-Misc", 5, "A. 其他话题 ", "附录 A"),
    Entry("B-CPP-Standart", Card("B-CPP-Standard", 6, "B. C++标准更新", "附录 B")),
    Keyed("M-Move-and-Smart-Pointer", 1, "M. move 和智能指针 ", ""),
    Keyed("O1-Bit-Operation", 2, "O1. 位运算", "附录 O1"),
    Keyed("Templates", 3, "Templates", "模板"),
    Keyed("Glossary", 4, "Glossary", "术语表")
  ]

  /** Position of the entry keyed `folder` in `cards`, or `|cards|` when there is none. */
  function Lookup(cards: seq<Entry>, folder: string): (i: nat)
    ensures i <= |cards|
    ensures i < |cards| ==> cards[i].key == folder
    ensures forall k :: 0 <= k < i ==> cards[k].key != folder
  {
    if cards == [] then 0 else if cards[0].key == folder then 0 else 1 + Lookup(cards[1..], folder)
  }

  /**
    What the rest of the model needs of the card table: every card uses one of
    the six styles; every card links to the folder it is keyed by, except entry
    23, keyed `B-CPP-Standart` and linking to `B-CPP-Standard`; and entry 23 is
    the only one whose key starts with `B`.
  */
  predicate TableFacts(cards: seq<Entry>) {
    |cards| == 28
    && cards[23].key == "B-CPP-Standart" && cards[23].card.link == "B-CPP-Standard" && cards[23].card.style == 6
    && (forall i :: 0 <= i < |cards| ==> 1 <= cards[i].card.style <= 6)
    && (forall i :: 0 <= i < |cards| && i != 23 ==>
          cards[i].card.link == cards[i].key && cards[i].key != [] && cards[i].key[0] != 'B')
  }

  /** `CARDS` has these facts. */
  lemma FixedTable()
    ensures TableFacts(FixedCards)
  {
    FixedStyles();
    FixedLinks();
    FixedFirstChars();
  }

  lemma FixedStyles()
    ensures |FixedCards| == 28
    ensures forall i :: 0 <= i < |FixedCards| ==> 1 <= FixedCards[i].card.style <= 6
  {
  }

  lemma FixedLinks()
    ensures FixedCards[23].key == "B-CPP-Standart" && FixedCards[23].card.link == "B-CPP-Standard" && FixedCards[23].card.style == 6
    ensures forall i :: 0 <= i < |FixedCards| && i != 23 ==> FixedCards[i].card.link == FixedCards[i].key
  {
  }

  lemma FixedFirstChars()
    ensures forall i :: 0 <= i < |FixedCards| && i != 23 ==> FixedCards[i].key != [] && FixedCards[i].key[0] != 'B'
  {
  }

  // ---------------------------------------------------------------------------
  // The folder list
  // ---------------------------------------------------------------------------

  /** `slug.split("/")[0]`. */
  function FolderOf(slug: string): string {
    Split(slug, '/')[0]
  }

  /** The folder of a slug is the text before its first `/`. */
  lemma FolderOfSpec(slug: string)
    requires '/' in slug
    ensures FolderOf(slug) == slug[..IndexOf(slug, '/')]
    ensures '/' !in FolderOf(slug)
  {
    var i := IndexOf(slug, '/');
    assert i < |slug|;
    assert forall k :: 0 <= k < i ==> slug[..i][k] == slug[k];
  }

  /** `folderPath.startsWith(".")`. */
  predicate Hidden(folder: string) {
    |folder| > 0 && folder[0] == '.'
  }

  /** A file whose slug gives a folder to the list: it has a slug, the slug holds a `/`, the folder is not hidden. */
  predicate Contributes(slug: Option<string>) {
    slug.Some? && '/' in slug.value && !Hidden(FolderOf(slug.value))
  }

  /** The folders the files give. */
  function FolderSet(slugs: seq<Option<string>>): set<string> {
    set i | 0 <= i < |slugs| && Contributes(slugs[i]) :: FolderOf(slugs[i].value)
  }

  lemma FolderSetStep(slugs: seq<Option<string>>, k: nat)
    requires k < |slugs|
    ensures FolderSet(slugs[..k + 1])
      == FolderSet(slugs[..k]) + (if Contributes(slugs[k]) then {FolderOf(slugs[k].value)} else {})
  {
    var p, q := slugs[..k], slugs[..k + 1];
    assert forall i :: 0 <= i < k ==> q[i] == p[i];
    assert q[k] == slugs[k];
  }

  /**
    `folders`: the files with a slug holding `/` are reduced into a list that
    takes each folder once and leaves out hidden ones, and the list is sorted.
  */
  method Folders(slugs: seq<Option<string>>) returns (folders: seq<string>)
    ensures Sorted(folders) && Distinct(folders)
    ensures forall x :: x in folders <==> x in FolderSet(slugs)
  {
    var acc: seq<string> := [];
    for k := 0 to |slugs|
      invariant Distinct(acc)
      invariant forall x :: x in acc <==> x in FolderSet(slugs[..k])
    {
      FolderSetStep(slugs, k);
      var slug := slugs[k];
      if slug.Some? && '/' in slug.value && slug.value != [] {
        var folderPath := FolderOf(slug.value);
        if folderPath !in acc && !Hidden(folderPath) {
          acc := acc + [folderPath];
        }
      }
    }
    assert slugs[..|slugs|] == slugs;
    folders := Sort(acc);
    DistinctPermutation(acc, folders);
    assert forall x :: x in folders <==> x in multiset(acc);
  }

  // ---------------------------------------------------------------------------
  // The fallback card
  // ---------------------------------------------------------------------------

  predicate AllDigits(s: string) {
    forall k :: 0 <= k < |s| ==> IsDigit(s[k])
  }

  /** `/^(\d+)-/` matches: a digit run, then `-`. */
  predicate HasNumber(folder: string) {
    0 < Span(folder, true) < |folder| && folder[Span(folder, true)] == '-'
  }

  /** `folderNumber`: the digits before the first `-` when the name starts that way, else empty. */
  function FolderNumber(folder: string): (n: string)
    ensures AllDigits(n)
  {
    if HasNumber(folder) then folder[..Span(folder, true)] else ""
  }

  /** The number is the digit run a `-` follows at the start of the name, and there is none exactly when it is empty. */
  lemma FolderNumberSpec(folder: string)
    ensures FolderNumber(folder) != [] ==>
      |FolderNumber(folder)| < |folder| && folder[..|FolderNumber(folder)|] == FolderNumber(folder)
      && folder[|FolderNumber(folder)|] == '-'
    ensures FolderNumber(folder) == [] ==>
      forall n :: 0 < n < |folder| && folder[n] == '-' ==> !AllDigits(folder[..n])
  {
    if FolderNumber(folder) == [] {
      forall n | 0 < n < |folder| && folder[n] == '-' ensures !AllDigits(folder[..n]) {
        var m := Span(folder, true);
        if m < n {
          assert folder[..n][m] == folder[m];
        }
      }
    }
  }

  /** `replace(/-/g, " ")`. */
  function Unhyphen(s: string): (r: string)
    ensures |r| == |s| && forall k :: 0 <= k < |s| ==> r[k] == if s[k] == '-' then ' ' else s[k]
  {
    if s == [] then [] else [if s[0] == '-' then ' ' else s[0]] + Unhyphen(s[1..])
  }

  /** `displayName`: the name without its number prefix, hyphens turned into spaces. */
  function DisplayName(folder: string): (name: string)
    ensures '-' !in name
  {
    Unhyphen(if HasNumber(folder) then folder[Span(folder, true) + 1..] else folder)
  }

  /**
    The label is the folder name after its `FolderNumber` and the `-` that
    follows it (nothing is dropped when there is no number), character by
    character, with every `-` read as a space.
  */
  lemma DisplayNameSpec(folder: string)
    ensures var off := if FolderNumber(folder) == [] then 0 else |FolderNumber(folder)| + 1;
      off <= |folder| && |DisplayName(folder)| == |folder| - off
      && forall k :: 0 <= k < |DisplayName(folder)| ==>
           DisplayName(folder)[k] == if folder[off + k] == '-' then ' ' else folder[off + k]
  {
    var off := if FolderNumber(folder) == [] then 0 else |FolderNumber(folder)| + 1;
    var rest := if HasNumber(folder) then folder[Span(folder, true) + 1..] else folder;
    assert rest == folder[off..];
  }

  /** `a % b` in JavaScript: the sign of the dividend. */
  function JsRem(a: int, b: int): int
    requires b > 0
  {
    if a >= 0 then a % b else -((-a) % b)
  }

  /** `parseInt(folderNumber) % 6 || 1`: `NaN` and 0 give 1. */
  function CardStyle(folderNumber: string): (style: int)
    ensures style != 0 && -5 <= style <= 5
    ensures ParseInt10(folderNumber).None? ==> style == 1
  {
    var v := ParseInt10(folderNumber);
    if v.None? || JsRem(v.value, 6) == 0 then 1 else JsRem(v.value, 6)
  }

  /** The card made up for a folder `CARDS` has no entry for. */
  function FallbackCard(folder: string): Card {
    var folderNumber := FolderNumber(folder);
    Card(folder, CardStyle(folderNumber), DisplayName(folder), "章节 " + folderNumber)
  }

  /** A made-up card uses one of the styles 1 to 5, never the sixth. */
  lemma FallbackStyle(folder: string)
    ensures 1 <= FallbackCard(folder).style <= 5
    ensures FolderNumber(folder) == [] ==> FallbackCard(folder).style == 1
  {
    var n := FolderNumber(folder);
    if n == [] {
      ParseNoDigits(n);
    } else {
      ParseDigits(n);
    }
  }

  /** Example: chapter 30 gets the name after its number and, as 30 % 6 is 0, style 1. */
  lemma FallbackExample()
    ensures FallbackCard("30-Io-Ex") == Card("30-Io-Ex", 1, "Io Ex", "章节 30")
  {
    ExampleNumber();
    ExampleName();
    ExampleStyle();
    assert "章节 " + "30" == "章节 30";
  }

  lemma ExampleNumber()
    ensures HasNumber("30-Io-Ex") && Span("30-Io-Ex", true) == 2
    ensures FolderNumber("30-Io-Ex") == "30"
  {
    var f := "30-Io-Ex";
    assert f[1..] == "0-Io-Ex" && f[2..] == "-Io-Ex";
  }

  lemma ExampleName()
    requires HasNumber("30-Io-Ex") && Span("30-Io-Ex", true) == 2
    ensures DisplayName("30-Io-Ex") == "Io Ex"
  {
    assert "30-Io-Ex"[3..] == "Io-Ex";
    var r := Unhyphen("Io-Ex");
    assert r[0] == 'I' && r[1] == 'o' && r[2] == ' ' && r[3] == 'E' && r[4] == 'x';
  }

  lemma ExampleStyle()
    ensures CardStyle("30") == 1
  {
    ParseDigits("30");
    assert ParseDec("30") == 30 by { assert "30"[..1] == "3"; }
  }

  // ---------------------------------------------------------------------------
  // The cards
  // ---------------------------------------------------------------------------

  /** `cards[folder] ? cards[folder](fileData) : <fallback card>`. */
  function CardIn(cards: seq<Entry>, folder: string): Card {
    var i := Lookup(cards, folder);
    if i < |cards| then cards[i].card else FallbackCard(folder)
  }

  /** The card `CARDS` and the fallback give a folder. */
  function CardFor(folder: string): Card {
    CardIn(FixedCards, folder)
  }

  /** A folder with a fixed entry shows that entry's card; any other folder shows its made-up card. */
  lemma CardChoice(folder: string)
    ensures (exists i :: 0 <= i < |FixedCards| && FixedCards[i].key == folder) ==>
      exists i :: 0 <= i < |FixedCards| && FixedCards[i].key == folder && CardFor(folder) == FixedCards[i].card
    ensures (forall i :: 0 <= i < |FixedCards| ==> FixedCards[i].key != folder) ==> CardFor(folder) == FallbackCard(folder)
  {
  }

  /** Every card uses one of the six styles, and links to its own folder unless that folder is `B-CPP-Standart`. */
  lemma CardShape(folder: string)
    ensures folder != "B-CPP-Standart" ==> CardFor(folder).link == folder
    ensures 1 <= CardFor(folder).style <= 6
  {
    FixedTable();
    ShapeIn(FixedCards, folder);
  }

  lemma ShapeIn(cards: seq<Entry>, folder: string)
    requires TableFacts(cards)
    ensures folder != "B-CPP-Standart" ==> CardIn(cards, folder).link == folder
    ensures 1 <= CardIn(cards, folder).style <= 6
  {
    FallbackStyle(folder);
  }

  /** `folders.map(...)`: one card per folder, in the order of the folder list. */
  function LandingCards(folders: seq<string>): (cards: seq<Card>)
    ensures |cards| == |folders|
    ensures forall i :: 0 <= i < |folders| ==> Shaped(folders[i], cards[i])
  {
    if folders == [] then []
    else
      var c := CardFor(folders[0]);
      CardShape(folders[0]);
      assert Shaped(folders[0], c);
      [c] + LandingCards(folders[1..])
  }

  /** A card uses one of the six styles and links to its folder, unless the folder is `B-CPP-Standart`. */
  predicate Shaped(folder: string, card: Card) {
    1 <= card.style <= 6 && (folder != "B-CPP-Standart" ==> card.link == folder)
  }

  // ---------------------------------------------------------------------------
  // The `B-CPP-Standart` entry
  // ---------------------------------------------------------------------------

  /** The entry at `j` is the first one keyed `f`. */
  lemma LookupAt(cards: seq<Entry>, f: string, j: nat)
    requires j < |cards| && cards[j].key == f
    requires forall k :: 0 <= k < j ==> cards[k].key != f
    ensures Lookup(cards, f) == j
  {
  }

  /**
    As written, the appendix B card is keyed `B-CPP-Standart` but links to
    `B-CPP-Standard`. So if the folder is named `B-CPP-Standart`, its card leads
    to a folder that is not in the list. If the folder is named `B-CPP-Standard`,
    the fixed card is never shown, and the folder gets a made-up card: style 1,
    title `B CPP Standard` and an empty chapter number.
  */
  lemma StandartLink()
    ensures CardFor("B-CPP-Standart").link == "B-CPP-Standard"
    ensures CardFor("B-CPP-Standard") == Card("B-CPP-Standard", 1, "B CPP Standard", "章节 ")
  {
    FixedTable();
    StandartIn(FixedCards, "B-CPP-Standart", "B-CPP-Standard");
    StandardName("B-CPP-Standard");
  }

  lemma StandartIn(cards: seq<Entry>, t: string, d: string)
    requires TableFacts(cards) && t == "B-CPP-Standart" && d == "B-CPP-Standard"
    ensures CardIn(cards, t).link == d
    ensures CardIn(cards, d) == FallbackCard(d)
  {
    assert t[0] == 'B' && d[0] == 'B';
    LookupAt(cards, t, 23);
    forall k | 0 <= k < |cards| ensures cards[k].key != d {
      if k == 23 {
        assert cards[k].key[13] != d[13];
      }
    }
  }

  lemma StandardName(f: string)
    requires f == "B-CPP-Standard"
    ensures FallbackCard(f) == Card(f, 1, "B CPP Standard", "章节 ")
  {
    assert Span(f, true) == 0;
    assert FolderNumber(f) == "";
    ParseNoDigits("");
    var r := Unhyphen(f);
    assert |r| == 14;
    assert r[0] == 'B' && r[1] == ' ' && r[2] == 'C' && r[3] == 'P' && r[4] == 'P' && r[5] == ' ' && r[6] == 'S';
    assert r[7] == 't' && r[8] == 'a' && r[9] == 'n' && r[10] == 'd' && r[11] == 'a' && r[12] == 'r' && r[13] == 'd';
    assert r == "B CPP Standard";
    assert "章节 " + "" == "章节 ";
  }

  /** `CARDS` as evidently intended: the appendix B card links to the folder it is keyed by. */
  const IntendedCards: seq<Entry> := FixedCards[23 := Keyed("B-CPP-Standart", 6, "B. C++标准更新", "附录 B")]

  /** Every card of the table links to the folder it is keyed by and uses one of the six styles. */
  predicate LinksAgree(cards: seq<Entry>) {
    forall i :: 0 <= i < |cards| ==> cards[i].card.link == cards[i].key && 1 <= cards[i].card.style <= 6
  }

  /** The correction changes the link of the `B-CPP-Standart` card and nothing else, and every link then agrees with its key. */
  lemma IntendedOnlyB()
    ensures |IntendedCards| == |FixedCards|
    ensures forall i :: 0 <= i < |FixedCards| && i != 23 ==> IntendedCards[i] == FixedCards[i]
    ensures IntendedCards[23] == Entry(FixedCards[23].key, FixedCards[23].card.(link := FixedCards[23].key))
    ensures LinksAgree(IntendedCards)
  {
    FixedTable();
  }

  /** The card chosen from the corrected table. */
  function IntendedCardFor(folder: string): Card {
    CardIn(IntendedCards, folder)
  }

  /** With the correction, every card links to its own folder, and the appendix B folder shows its fixed card. */
  lemma IntendedCardShape(folder: string)
    ensures IntendedCardFor(folder).link == folder
    ensures 1 <= IntendedCardFor(folder).style <= 6
    ensures IntendedCardFor("B-CPP-Standart") == Card("B-CPP-Standart", 6, "B. C++标准更新", "附录 B")
  {
    IntendedOnlyB();
    FixedTable();
    AgreeIn(IntendedCards, folder);
    assert IntendedCards[23].key == "B-CPP-Standart";
    BFirstIn(IntendedCards, 23, "B-CPP-Standart");
  }

  /** With a table whose links agree with its keys, every card links to its own folder. */
  lemma AgreeIn(cards: seq<Entry>, folder: string)
    requires LinksAgree(cards)
    ensures CardIn(cards, folder).link == folder
    ensures 1 <= CardIn(cards, folder).style <= 6
  {
    FallbackStyle(folder);
  }

  /** The entry at `j` is the only one whose key starts with `B`, so a `B` folder keyed there is found there. */
  lemma BFirstIn(cards: seq<Entry>, j: nat, f: string)
    requires j < |cards| && cards[j].key == f && f != [] && f[0] == 'B'
    requires forall i :: 0 <= i < |cards| && i != j ==> cards[i].key != [] && cards[i].key[0] != 'B'
    ensures CardIn(cards, f) == cards[j].card
  {
    LookupAt(cards, f, j);
  }
}
