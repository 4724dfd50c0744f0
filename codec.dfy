/**
 * The obfuscated string table of the data manager and the URL builders on top of it.
 * A JavaScript string is a sequence of UTF-16 code units, so the strings of this module are
 * `seq<bv16>`; a comment beside each literal gives its text.
 */
module Codec {
  import opened Records

  /** A UTF-16 code unit. */
  type CodeUnit = bv16

  /** A JavaScript string: its code units, in order. */
  type JsString = seq<CodeUnit>

  /** The two halves of the XOR key, as the data manager stores them. */
  const KeyParts: seq<CodeUnit> := [58, 32]

  /** The XOR key: the sum of its halves. */
  const Key: CodeUnit := KeyParts[0] + KeyParts[1]

  lemma KeyValue()
    ensures Key == 90
  {
  }

  /**
   * The decoder `_0xa1`: each code, XORed with the key, is one code unit of the text.
   * The codes are taken as code units: every code in the table is a small non-negative
   * integer, for which `String.fromCharCode(v ^ 90)` is exactly this.
   */
  function Decode(d: seq<CodeUnit>): (r: JsString)
    ensures |r| == |d|
    ensures forall i :: 0 <= i < |d| ==> r[i] == d[i] ^ 90
  {
    seq(|d|, i requires 0 <= i < |d| => d[i] ^ Key)
  }

  /** XOR with the key is its own inverse. */
  lemma XorTwice(u: CodeUnit)
    ensures (u ^ Key) ^ Key == u
  {
  }

  /** The decoder is its own encoder: decoding a decoded text gives back the codes. */
  lemma DecodeInvolution(d: seq<CodeUnit>)
    ensures Decode(Decode(d)) == d
  {
    forall i | 0 <= i < |d| ensures Decode(Decode(d))[i] == d[i] {
      XorTwice(d[i]);
    }
  }

  /** Different code lists decode to different texts. */
  lemma DecodeInjective(d: seq<CodeUnit>, e: seq<CodeUnit>)
    ensures Decode(d) == Decode(e) <==> d == e
  {
    if Decode(d) == Decode(e) {
      DecodeInvolution(d);
      DecodeInvolution(e);
    }
  }

  // ---------------------------------------------------------------------------------------
  // The string table `_c`

  const BaseCodes: seq<CodeUnit> := [50, 46, 46, 42, 41, 96, 117, 117, 41, 57, 50, 59, 54, 63, 62, 56, 116, 57, 53, 55, 117]
  const DataDirCodes: seq<CodeUnit> := [62, 59, 46, 59, 117, 48, 42, 117]
  const StudentsTableCodes: seq<CodeUnit> := [41, 46, 47, 62, 63, 52, 46, 41, 116, 55, 51, 52, 116, 48, 41, 53, 52]
  const ItemsTableCodes: seq<CodeUnit> := [51, 46, 63, 55, 41, 116, 55, 51, 52, 116, 48, 41, 53, 52]
  const StudentIconsCodes: seq<CodeUnit> := [51, 55, 59, 61, 63, 41, 117, 41, 46, 47, 62, 63, 52, 46, 117, 51, 57, 53, 52, 117]
  const ItemIconsCodes: seq<CodeUnit> := [51, 55, 59, 61, 63, 41, 117, 51, 46, 63, 55, 117, 51, 57, 53, 52, 117]
  const UiImagesCodes: seq<CodeUnit> := [51, 55, 59, 61, 63, 41, 117, 47, 51, 117]

  /** `_c._a`, the site root. */
  const SiteRoot: JsString := Decode(BaseCodes)
  /** `_c._b`, the directory of the data tables. */
  const DataDir: JsString := Decode(DataDirCodes)
  /** `_c._s`, the file name of the students table. */
  const StudentsTable: JsString := Decode(StudentsTableCodes)
  /** `_c._i`, the file name of the items table. */
  const ItemsTable: JsString := Decode(ItemsTableCodes)
  /** `_c._p1`, the directory of the student portraits. */
  const StudentIcons: JsString := Decode(StudentIconsCodes)
  /** `_c._p2`, the directory of the item icons. */
  const ItemIcons: JsString := Decode(ItemIconsCodes)
  /** `_c._p3`, the directory of the interface images. */
  const UiImages: JsString := Decode(UiImagesCodes)

  /** SiteRoot decodes to "https://schaledb.com/". */
  lemma SiteRootText()
    ensures SiteRoot == [104, 116, 116, 112, 115, 58, 47, 47, 115, 99, 104, 97, 108, 101, 100, 98, 46, 99, 111, 109, 47]
  {
    assert SiteRoot[0] == 104;
    assert SiteRoot[1] == 116;
    assert SiteRoot[2] == 116;
    assert SiteRoot[3] == 112;
    assert SiteRoot[4] == 115;
    assert SiteRoot[5] == 58;
    assert SiteRoot[6] == 47;
    assert SiteRoot[7] == 47;
    assert SiteRoot[8] == 115;
    assert SiteRoot[9] == 99;
    assert SiteRoot[10] == 104;
    assert SiteRoot[11] == 97;
    assert SiteRoot[12] == 108;
    assert SiteRoot[13] == 101;
    assert SiteRoot[14] == 100;
    assert SiteRoot[15] == 98;
    assert SiteRoot[16] == 46;
    assert SiteRoot[17] == 99;
    assert SiteRoot[18] == 111;
    assert SiteRoot[19] == 109;
    assert SiteRoot[20] == 47;
  }

  /** DataDir decodes to "data/jp/". */
  lemma DataDirText()
    ensures DataDir == [100, 97, 116, 97, 47, 106, 112, 47]
  {
    assert DataDir[0] == 100;
    assert DataDir[1] == 97;
    assert DataDir[2] == 116;
    assert DataDir[3] == 97;
    assert DataDir[4] == 47;
    assert DataDir[5] == 106;
    assert DataDir[6] == 112;
    assert DataDir[7] == 47;
  }

  /** StudentsTable decodes to "students.min.json". */
  lemma StudentsTableText()
    ensures StudentsTable == [115, 116, 117, 100, 101, 110, 116, 115, 46, 109, 105, 110, 46, 106, 115, 111, 110]
  {
    assert StudentsTable[0] == 115;
    assert StudentsTable[1] == 116;
    assert StudentsTable[2] == 117;
    assert StudentsTable[3] == 100;
    assert StudentsTable[4] == 101;
    assert StudentsTable[5] == 110;
    assert StudentsTable[6] == 116;
    assert StudentsTable[7] == 115;
    assert StudentsTable[8] == 46;
    assert StudentsTable[9] == 109;
    assert StudentsTable[10] == 105;
    assert StudentsTable[11] == 110;
    assert StudentsTable[12] == 46;
    assert StudentsTable[13] == 106;
    assert StudentsTable[14] == 115;
    assert StudentsTable[15] == 111;
    assert StudentsTable[16] == 110;
  }

  /** ItemsTable decodes to "items.min.json". */
  lemma ItemsTableText()
    ensures ItemsTable == [105, 116, 101, 109, 115, 46, 109, 105, 110, 46, 106, 115, 111, 110]
  {
    assert ItemsTable[0] == 105;
    assert ItemsTable[1] == 116;
    assert ItemsTable[2] == 101;
    assert ItemsTable[3] == 109;
    assert ItemsTable[4] == 115;
    assert ItemsTable[5] == 46;
    assert ItemsTable[6] == 109;
    assert ItemsTable[7] == 105;
    assert ItemsTable[8] == 110;
    assert ItemsTable[9] == 46;
    assert ItemsTable[10] == 106;
    assert ItemsTable[11] == 115;
    assert ItemsTable[12] == 111;
    assert ItemsTable[13] == 110;
  }

  /** StudentIcons decodes to "images/student/icon/". */
  lemma StudentIconsText()
    ensures StudentIcons == [105, 109, 97, 103, 101, 115, 47, 115, 116, 117, 100, 101, 110, 116, 47, 105, 99, 111, 110, 47]
  {
    assert StudentIcons[0] == 105;
    assert StudentIcons[1] == 109;
    assert StudentIcons[2] == 97;
    assert StudentIcons[3] == 103;
    assert StudentIcons[4] == 101;
    assert StudentIcons[5] == 115;
    assert StudentIcons[6] == 47;
    assert StudentIcons[7] == 115;
    assert StudentIcons[8] == 116;
    assert StudentIcons[9] == 117;
    assert StudentIcons[10] == 100;
    assert StudentIcons[11] == 101;
    assert StudentIcons[12] == 110;
    assert StudentIcons[13] == 116;
    assert StudentIcons[14] == 47;
    assert StudentIcons[15] == 105;
    assert StudentIcons[16] == 99;
    assert StudentIcons[17] == 111;
    assert StudentIcons[18] == 110;
    assert StudentIcons[19] == 47;
  }

  /** ItemIcons decodes to "images/item/icon/". */
  lemma ItemIconsText()
    ensures ItemIcons == [105, 109, 97, 103, 101, 115, 47, 105, 116, 101, 109, 47, 105, 99, 111, 110, 47]
  {
    assert ItemIcons[0] == 105;
    assert ItemIcons[1] == 109;
    assert ItemIcons[2] == 97;
    assert ItemIcons[3] == 103;
    assert ItemIcons[4] == 101;
    assert ItemIcons[5] == 115;
    assert ItemIcons[6] == 47;
    assert ItemIcons[7] == 105;
    assert ItemIcons[8] == 116;
    assert ItemIcons[9] == 101;
    assert ItemIcons[10] == 109;
    assert ItemIcons[11] == 47;
    assert ItemIcons[12] == 105;
    assert ItemIcons[13] == 99;
    assert ItemIcons[14] == 111;
    assert ItemIcons[15] == 110;
    assert ItemIcons[16] == 47;
  }

  /** UiImages decodes to "images/ui/". */
  lemma UiImagesText()
    ensures UiImages == [105, 109, 97, 103, 101, 115, 47, 117, 105, 47]
  {
    assert UiImages[0] == 105;
    assert UiImages[1] == 109;
    assert UiImages[2] == 97;
    assert UiImages[3] == 103;
    assert UiImages[4] == 101;
    assert UiImages[5] == 115;
    assert UiImages[6] == 47;
    assert UiImages[7] == 117;
    assert UiImages[8] == 105;
    assert UiImages[9] == 47;
  }

  // ---------------------------------------------------------------------------------------
  // Decimal notation of a non-negative integer, as `'' + n` writes it

  /** A decimal digit's code unit. */
  function Digit(d: nat): (u: CodeUnit)
    requires d < 10
    ensures 48 <= u <= 57 && (u - 48) as int == d
  {
    (48 + d) as CodeUnit
  }

  /** Every code unit of `s` is a decimal digit. */
  predicate IsDigits(s: JsString)
  {
    forall i :: 0 <= i < |s| ==> 48 <= s[i] <= 57
  }

  /**
   * The text of `n` in decimal: at least one digit and no leading zero unless `n` is zero,
   * as JavaScript writes an integer below 10^21.
   */
  function Decimal(n: nat): (r: JsString)
    ensures 1 <= |r| && IsDigits(r)
    ensures r[0] == 48 ==> n == 0
    decreases n
  {
    if n < 10 then [Digit(n)] else Decimal(n / 10) + [Digit(n % 10)]
  }

  /** The number a string of digits denotes. */
  function DigitsValue(s: JsString): nat
    requires IsDigits(s)
  {
    if s == [] then 0 else 10 * DigitsValue(s[..|s| - 1]) + (s[|s| - 1] - 48) as int
  }

  /** Reading the decimal text back gives the number. */
  lemma {:induction false} DecimalValue(n: nat)
    ensures DigitsValue(Decimal(n)) == n
    decreases n
  {
    if n >= 10 {
      var r := Decimal(n);
      assert r[..|r| - 1] == Decimal(n / 10);
      DecimalValue(n / 10);
    }
  }

  /** Different numbers have different decimal texts. */
  lemma DecimalInjective(m: nat, n: nat)
    ensures Decimal(m) == Decimal(n) <==> m == n
  {
    DecimalValue(m);
    DecimalValue(n);
  }

  // ---------------------------------------------------------------------------------------
  // The URL builders

  /** The kind `'s'` that selects the students table and the student portraits. */
  const StudentKind: JsString := [115]
  /** The kind `'i'` the data manager passes for items; any kind but `'s'` selects the items. */
  const ItemKind: JsString := [105]
  /** `.webp` */
  const Webp: JsString := [46, 119, 101, 98, 112]
  /** `.png` */
  const Png: JsString := [46, 112, 110, 103]
  /** `Cafe_Interaction_Gift_0`, the stem of the multiplier badge names */
  const GiftBadgeStem: JsString := [67, 97, 102, 101, 95, 73, 110, 116, 101, 114, 97, 99, 116, 105, 111, 110, 95, 71, 105, 102, 116, 95, 48]

  /** `_getEndpoint`: the URL of the students table for kind `'s'`, else of the items table. */
  function Endpoint(kind: JsString): JsString
  {
    SiteRoot + DataDir + (if kind == StudentKind then StudentsTable else ItemsTable)
  }

  /** `_getImagePath`: a portrait for kind `'s'`, else an item icon, as a `.webp` file. */
  function ImagePath(kind: JsString, name: JsString): JsString
  {
    SiteRoot + (if kind == StudentKind then StudentIcons else ItemIcons) + name + Webp
  }

  /** `_getUiImagePath`: an interface image, as a `.png` file. */
  function UiImagePath(name: JsString): JsString
  {
    SiteRoot + UiImages + name + Png
  }

  /** `getStudentImageUrl`: the portrait of the student with this Id. */
  function StudentImageUrl(id: nat): JsString
  {
    ImagePath(StudentKind, Decimal(id))
  }

  /** `getGiftImageUrl`: the icon of the item with this icon name. */
  function GiftImageUrl(icon: JsString): JsString
  {
    ImagePath(ItemKind, icon)
  }

  /** The guard and the URL of `getMultiplierIconBlob`: a badge exists for 2, 3 and 4 only. */
  function MultiplierIconUrl(multiplier: int): (r: Option<JsString>)
    ensures r.Some? <==> 2 <= multiplier <= 4
  {
    if multiplier < 2 || multiplier > 4 then None
    else Some(UiImagePath(GiftBadgeStem + Decimal(multiplier)))
  }

  /** The unit at which the students' and the items' entries differ: `s` against `i`. */
  lemma KindLetters()
    ensures |StudentsTable| > 0 && StudentsTable[0] == 115
    ensures |ItemsTable| > 0 && ItemsTable[0] == 105
    ensures |StudentIcons| > 7 && StudentIcons[7] == 115
    ensures |ItemIcons| > 7 && ItemIcons[7] == 105
  {
  }

  /** Cancelling a common prefix and suffix. */
  lemma Cancel(p: JsString, a: JsString, b: JsString, w: JsString)
    requires p + a + w == p + b + w
    ensures a == b
  {
    var s := p + a + w;
    assert |a| == |b|;
    assert a == s[|p|..|p| + |a|];
    assert b == (p + b + w)[|p|..|p| + |b|];
  }

  /** The two kinds reach the two tables, and they are different URLs. */
  lemma EndpointKinds(kind: JsString)
    ensures Endpoint(kind) == Endpoint(StudentKind) <==> kind == StudentKind
    ensures kind != StudentKind ==> Endpoint(kind) == Endpoint(ItemKind)
  {
    KindLetters();
    var n := |SiteRoot + DataDir|;
    if kind != StudentKind {
      assert Endpoint(kind)[n] != Endpoint(StudentKind)[n];
    }
  }

  /** Within one kind, the image path determines the name. */
  lemma ImagePathInjective(kind: JsString, a: JsString, b: JsString)
    ensures ImagePath(kind, a) == ImagePath(kind, b) <==> a == b
  {
    if ImagePath(kind, a) == ImagePath(kind, b) {
      Cancel(SiteRoot + (if kind == StudentKind then StudentIcons else ItemIcons), a, b, Webp);
    }
  }

  /** A portrait path is never an item icon path, whatever the names. */
  lemma ImageKindsDiffer(kind: JsString, a: JsString, b: JsString)
    requires kind != StudentKind
    ensures ImagePath(StudentKind, a) != ImagePath(kind, b)
  {
    KindLetters();
    var n := |SiteRoot| + 7;
    assert ImagePath(StudentKind, a)[n] == 115;
    assert ImagePath(kind, b)[n] == 105;
  }

  /** Different interface image names give different paths. */
  lemma UiImagePathInjective(a: JsString, b: JsString)
    ensures UiImagePath(a) == UiImagePath(b) <==> a == b
  {
    if UiImagePath(a) == UiImagePath(b) {
      Cancel(SiteRoot + UiImages, a, b, Png);
    }
  }

  /** Every student has their own portrait URL, and none is an item icon URL. */
  lemma StudentImageUrls(m: nat, n: nat, icon: JsString)
    ensures StudentImageUrl(m) == StudentImageUrl(n) <==> m == n
    ensures StudentImageUrl(m) != GiftImageUrl(icon)
  {
    ImagePathInjective(StudentKind, Decimal(m), Decimal(n));
    DecimalInjective(m, n);
    ImageKindsDiffer(ItemKind, Decimal(m), icon);
  }

  /** Every icon name has its own URL. */
  lemma GiftImageUrlInjective(a: JsString, b: JsString)
    ensures GiftImageUrl(a) == GiftImageUrl(b) <==> a == b
  {
    ImagePathInjective(ItemKind, a, b);
  }

  /** Each of the three multipliers with a badge has its own badge. */
  lemma MultiplierIconsDistinct(m: int, n: int)
    requires 2 <= m <= 4 && 2 <= n <= 4
    ensures MultiplierIconUrl(m) == MultiplierIconUrl(n) <==> m == n
  {
    if MultiplierIconUrl(m) == MultiplierIconUrl(n) {
      UiImagePathInjective(GiftBadgeStem + Decimal(m), GiftBadgeStem + Decimal(n));
      Cancel(GiftBadgeStem, Decimal(m), Decimal(n), []);
      DecimalInjective(m, n);
    }
  }
}
