/** `DefaultIdGeneratorCategorySpec`: the settings for one identifier category.
    The name is fixed at creation (and may be null); the other settings start
    at their documented defaults and are changed by fluent setters. */
module CategorySpecs {
  import opened Wrappers
  import opened JavaText
  import IdFormat

  const DefaultStartId: int := 1
  const DefaultBlockSize: int := 10
  const DefaultLength: int := 0
  const DefaultPaddingChar: char := '0'

  datatype CategorySpec = CategorySpec(
    categoryName: Option<string>,
    startId: int,
    blockSize: int,
    length: int,
    paddingChar: char,
    idPrefix: Option<string>)

  /** `create(name)`: start 1, block size 10, length 0, padding '0', no prefix. */
  function Create(name: Option<string>): (s: CategorySpec)
    ensures s.categoryName == name
    ensures s.startId == DefaultStartId && s.blockSize == DefaultBlockSize
    ensures s.length == DefaultLength && s.paddingChar == DefaultPaddingChar
    ensures s.idPrefix == None
  {
    CategorySpec(name, DefaultStartId, DefaultBlockSize, DefaultLength, DefaultPaddingChar, None)
  }

  function SetStartId(s: CategorySpec, startId: int): (r: CategorySpec)
    ensures r.startId == startId
    ensures r.(startId := s.startId) == s
  {
    s.(startId := startId)
  }

  function SetBlockSize(s: CategorySpec, blockSize: int): (r: CategorySpec)
    ensures r.blockSize == blockSize
    ensures r.(blockSize := s.blockSize) == s
  {
    s.(blockSize := blockSize)
  }

  function SetLength(s: CategorySpec, length: int): (r: CategorySpec)
    ensures r.length == length
    ensures r.(length := s.length) == s
  {
    s.(length := length)
  }

  function SetPaddingChar(s: CategorySpec, c: char): (r: CategorySpec)
    ensures r.paddingChar == c
    ensures r.(paddingChar := s.paddingChar) == s
  {
    s.(paddingChar := c)
  }

  function SetIdPrefix(s: CategorySpec, prefix: Option<string>): (r: CategorySpec)
    ensures r.idPrefix == prefix
    ensures r.(idPrefix := s.idPrefix) == s
  {
    s.(idPrefix := prefix)
  }

  /** A setting that a fluent setter can change. */
  datatype Setting =
    | StartId(startId: int)
    | BlockSize(blockSize: int)
    | Length(length: int)
    | PaddingChar(c: char)
    | IdPrefix(prefix: Option<string>)

  function Apply(s: CategorySpec, u: Setting): CategorySpec {
    match u
    case StartId(v) => SetStartId(s, v)
    case BlockSize(v) => SetBlockSize(s, v)
    case Length(v) => SetLength(s, v)
    case PaddingChar(c) => SetPaddingChar(s, c)
    case IdPrefix(p) => SetIdPrefix(s, p)
  }

  /** A chain of fluent setters, applied left to right. */
  function Configure(s: CategorySpec, us: seq<Setting>): (r: CategorySpec)
    decreases |us|
  {
    if |us| == 0 then s else Configure(Apply(s, us[0]), us[1..])
  }

  /** The category name is final: no chain of setters changes it. */
  lemma {:induction false} ConfigureKeepsName(s: CategorySpec, us: seq<Setting>)
    ensures Configure(s, us).categoryName == s.categoryName
    decreases |us|
  {
    if |us| > 0 {
      ConfigureKeepsName(Apply(s, us[0]), us[1..]);
    }
  }

  /** Setters that do not mention the start id leave it as it was; the last
      `setStartId` in a chain wins. */
  lemma {:induction false} ConfigureLastStartIdWins(s: CategorySpec, us: seq<Setting>)
    ensures (forall k :: 0 <= k < |us| ==> !us[k].StartId?) ==> Configure(s, us).startId == s.startId
    ensures |us| > 0 && us[|us| - 1].StartId? ==> Configure(s, us).startId == us[|us| - 1].startId
    decreases |us|
  {
    if |us| > 0 {
      ConfigureLastStartIdWins(Apply(s, us[0]), us[1..]);
      if |us| == 1 {
        assert Configure(Apply(s, us[0]), us[1..]) == Apply(s, us[0]);
      } else {
        assert us[1..][|us[1..]| - 1] == us[|us| - 1];
      }
      if forall k :: 0 <= k < |us| ==> !us[k].StartId? {
        assert !us[0].StartId?;
        assert forall k :: 0 <= k < |us[1..]| ==> !us[1..][k].StartId? by {
          forall k | 0 <= k < |us[1..]| ensures !us[1..][k].StartId? {
            assert us[1..][k] == us[k + 1];
          }
        }
      }
    }
  }

  /** The identifier format a spec describes: its prefix, length and padding character. */
  function SpecFormat(s: CategorySpec): IdFormat.Format {
    IdFormat.Format(s.idPrefix, s.length, s.paddingChar)
  }

  /** With the default length 0 the identifiers are plain decimal numbers. */
  lemma DefaultSpecIsUnpadded(name: Option<string>, n: int)
    ensures IdFormat.FormatId(SpecFormat(Create(name)), n) == IdFormat.DecimalString(n)
  {
  }

  const ClassName: string := "DefaultIdGeneratorCategorySpec"

  /** Everything `toString()` prints after the category name. */
  function SettingsText(s: CategorySpec): string {
    "', start=" + (IdFormat.DecimalString(s.startId)
      + (", blockSize=" + (IdFormat.DecimalString(s.blockSize)
      + (", length=" + (IdFormat.DecimalString(s.length)
      + (", padChar=" + ([s.paddingChar]
      + (", prefix='" + (Shown(s.idPrefix) + "')")))))))))
  }

  lemma KeepsEnd(p: string, q: string)
    requires |q| >= 2
    ensures (p + q)[|p + q| - 2..] == q[|q| - 2..]
  {
  }

  /** The settings text closes with `')`. */
  lemma SettingsTextEnds(s: CategorySpec)
    ensures |SettingsText(s)| >= 2 && SettingsText(s)[|SettingsText(s)| - 2..] == "')"
  {
    var q1 := Shown(s.idPrefix) + "')";
    KeepsEnd(Shown(s.idPrefix), "')");
    var q2 := ", prefix='" + q1;
    KeepsEnd(", prefix='", q1);
    var q3 := [s.paddingChar] + q2;
    KeepsEnd([s.paddingChar], q2);
    var q4 := ", padChar=" + q3;
    KeepsEnd(", padChar=", q3);
    var q5 := IdFormat.DecimalString(s.length) + q4;
    KeepsEnd(IdFormat.DecimalString(s.length), q4);
    var q6 := ", length=" + q5;
    KeepsEnd(", length=", q5);
    var q7 := IdFormat.DecimalString(s.blockSize) + q6;
    KeepsEnd(IdFormat.DecimalString(s.blockSize), q6);
    var q8 := ", blockSize=" + q7;
    KeepsEnd(", blockSize=", q7);
    var q9 := IdFormat.DecimalString(s.startId) + q8;
    KeepsEnd(IdFormat.DecimalString(s.startId), q8);
    KeepsEnd("', start=", q9);
  }

  /** `toString()`: the class name followed by all six settings. */
  function ToString(s: CategorySpec): (r: string)
    ensures |r| >= |ClassName| + 2 + |Shown(s.categoryName)| + 2
    ensures r[..|ClassName| + 2] == ClassName + "('"
    ensures r[|ClassName| + 2..|ClassName| + 2 + |Shown(s.categoryName)|] == Shown(s.categoryName)
    ensures r[|r| - 2..] == "')"
  {
    var head := ClassName + "('";
    var tail := SettingsText(s);
    SettingsTextEnds(s);
    assert (head + Shown(s.categoryName) + tail)[|head + Shown(s.categoryName)|..] == tail;
    head + Shown(s.categoryName) + tail
  }

  predicate NoComma(s: string) {
    forall i :: 0 <= i < |s| ==> s[i] != ','
  }

  /** The position of the first comma, or the length when there is none. */
  function FirstComma(s: string): (r: nat)
    ensures r <= |s|
    decreases |s|
  {
    if |s| == 0 || s[0] == ',' then 0 else 1 + FirstComma(s[1..])
  }

  lemma {:induction false} FirstCommaAfter(a: string, x: string)
    requires NoComma(a) && |x| > 0 && x[0] == ','
    ensures FirstComma(a + x) == |a|
    decreases |a|
  {
    if |a| == 0 {
      assert a + x == x;
    } else {
      assert (a + x)[1..] == a[1..] + x;
      FirstCommaAfter(a[1..], x);
    }
  }

  /** A comma-free piece in front of a comma is recovered from the joined text. */
  lemma SplitAtComma(a: string, x: string, a': string, x': string)
    requires NoComma(a) && |x| > 0 && x[0] == ','
    requires NoComma(a') && |x'| > 0 && x'[0] == ','
    requires a + x == a' + x'
    ensures a == a' && x == x'
  {
    FirstCommaAfter(a, x);
    FirstCommaAfter(a', x');
    assert a == (a + x)[..|a|] && a' == (a' + x')[..|a'|];
    assert x == (a + x)[|a|..] && x' == (a' + x')[|a'|..];
  }

  lemma DropFront(p: string, x: string, y: string)
    requires p + x == p + y
    ensures x == y
  {
    assert x == (p + x)[|p|..] && y == (p + y)[|p|..];
  }

  /** A decimal setting followed by the rest of the text is read back unambiguously. */
  lemma SplitDecimal(m: int, n: int, x: string, y: string)
    requires |x| > 0 && x[0] == ',' && |y| > 0 && y[0] == ','
    requires IdFormat.DecimalString(m) + x == IdFormat.DecimalString(n) + y
    ensures m == n && x == y
  {
    IdFormat.DecimalHasNoComma(m);
    IdFormat.DecimalHasNoComma(n);
    SplitAtComma(IdFormat.DecimalString(m), x, IdFormat.DecimalString(n), y);
    IdFormat.DecimalStringInjective(m, n);
  }

  /** The settings text determines the five settings: two specs print the same
      settings exactly when their start ids, block sizes, lengths and padding
      characters agree and their prefixes print alike (a null prefix and the
      prefix "null" print alike). */
  lemma {:induction false} SettingsTextIdentifiesSettings(a: CategorySpec, b: CategorySpec)
    ensures SettingsText(a) == SettingsText(b) <==>
      && a.startId == b.startId && a.blockSize == b.blockSize && a.length == b.length
      && a.paddingChar == b.paddingChar && Shown(a.idPrefix) == Shown(b.idPrefix)
  {
    if SettingsText(a) == SettingsText(b) {
      var ta := ", prefix='" + (Shown(a.idPrefix) + "')");
      var tb := ", prefix='" + (Shown(b.idPrefix) + "')");
      var pa := ", padChar=" + ([a.paddingChar] + ta);
      var pb := ", padChar=" + ([b.paddingChar] + tb);
      var la := ", length=" + (IdFormat.DecimalString(a.length) + pa);
      var lb := ", length=" + (IdFormat.DecimalString(b.length) + pb);
      var ba := ", blockSize=" + (IdFormat.DecimalString(a.blockSize) + la);
      var bb := ", blockSize=" + (IdFormat.DecimalString(b.blockSize) + lb);
      DropFront("', start=", IdFormat.DecimalString(a.startId) + ba, IdFormat.DecimalString(b.startId) + bb);
      SplitDecimal(a.startId, b.startId, ba, bb);
      DropFront(", blockSize=", IdFormat.DecimalString(a.blockSize) + la, IdFormat.DecimalString(b.blockSize) + lb);
      SplitDecimal(a.blockSize, b.blockSize, la, lb);
      DropFront(", length=", IdFormat.DecimalString(a.length) + pa, IdFormat.DecimalString(b.length) + pb);
      SplitDecimal(a.length, b.length, pa, pb);
      DropFront(", padChar=", [a.paddingChar] + ta, [b.paddingChar] + tb);
      assert a.paddingChar == ([a.paddingChar] + ta)[0];
      DropFront([a.paddingChar], ta, tb);
      DropFront(", prefix='", Shown(a.idPrefix) + "')", Shown(b.idPrefix) + "')");
      assert Shown(a.idPrefix) == (Shown(a.idPrefix) + "')")[..|Shown(a.idPrefix)|];
    }
  }

  /** For one category name, two specs print alike exactly when their other
      five settings agree as in `SettingsTextIdentifiesSettings`. */
  lemma ToStringIdentifiesSettings(a: CategorySpec, b: CategorySpec)
    requires Shown(a.categoryName) == Shown(b.categoryName)
    ensures ToString(a) == ToString(b) <==>
      && a.startId == b.startId && a.blockSize == b.blockSize && a.length == b.length
      && a.paddingChar == b.paddingChar && Shown(a.idPrefix) == Shown(b.idPrefix)
  {
    SettingsTextIdentifiesSettings(a, b);
    if ToString(a) == ToString(b) {
      DropFront(ClassName + "('" + Shown(a.categoryName), SettingsText(a), SettingsText(b));
    }
  }

  /** The text of the spec created for `Delta` with all defaults, piece by piece. */
  lemma DefaultSpecText()
    ensures ToString(Create(Some("Delta")))
         == ClassName + "('" + "Delta"
            + ("', start=" + ("1" + (", blockSize=" + ("10" + (", length=" + ("0"
               + (", padChar=" + ("0" + (", prefix='" + ("null" + "')"))))))))))
  {
    assert IdFormat.DecimalString(1) == "1";
    assert IdFormat.DecimalString(10) == "10";
    assert IdFormat.DecimalString(0) == "0";
  }
}
