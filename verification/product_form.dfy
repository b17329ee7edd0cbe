/** The acceptance rules of the product form (`validators` and
    `validateProductForm` in assets/js/main.js), one predicate per field, and
    the list of failing checks the form reports. */
module ProductForm {
  import opened Wrappers
  import opened Text

  /** The raw values of the form's fields. `file` is the name of the first
      selected file, if any; its content is read separately. */
  datatype Form = Form(name: string, price: string, category: string, description: string, file: Option<string>)

  // ---- name: /^[\w\s-]{3,16}$/ on the trimmed value ----

  predicate IsNameChar(c: char) {
    IsWordChar(c) || IsSpace(c) || c == '-'
  }

  predicate NamePattern(t: string) {
    3 <= |t| <= 16 && forall k :: 0 <= k < |t| ==> IsNameChar(t[k])
  }

  predicate NameOk(raw: string) {
    NamePattern(Trim(raw))
  }

  // ---- category: /^[a-zA-Z\s]{3,20}$/ on the trimmed value ----

  predicate IsCategoryChar(c: char) {
    IsAsciiLetter(c) || IsSpace(c)
  }

  predicate CategoryPattern(t: string) {
    3 <= |t| <= 20 && forall k :: 0 <= k < |t| ==> IsCategoryChar(t[k])
  }

  predicate CategoryOk(raw: string) {
    CategoryPattern(Trim(raw))
  }

  // ---- description: /^.{0,200}$/ on the raw value ----

  predicate DescriptionOk(d: string) {
    |d| <= 200 && forall k :: 0 <= k < |d| ==> !IsLineTerminator(d[k])
  }

  /** Whitespace typed around a name or a category never changes whether
      it passes: both are trimmed before their pattern is applied. */
  lemma PaddingIgnored(raw: string, pre: string, post: string)
    requires AllSpace(pre) && AllSpace(post)
    ensures NameOk(pre + raw + post) == NameOk(raw)
    ensures CategoryOk(pre + raw + post) == CategoryOk(raw)
  {
    TrimIgnoresPadding(pre, raw, post);
  }

  /** Descriptions: at most 200 characters on one line; empty is allowed. */
  lemma DescriptionExamples()
    ensures DescriptionOk("")
    ensures DescriptionOk("Crispy and hot")
    ensures !DescriptionOk("two\nlines")
    ensures !DescriptionOk(seq(201, k => 'a'))
  {
    assert "two\nlines"[3] == '\n';
  }

  // ---- price: /^\d+(\.\d{1,2})?$/ on the raw (untrimmed) value ----

  predicate AllDigits(s: string) {
    forall k :: 0 <= k < |s| ==> IsDigit(s[k])
  }

  /** The end of the run of digits that starts at position `i`. */
  function DigitsEnd(s: string, i: nat): (j: nat)
    requires i <= |s|
    ensures i <= j <= |s|
    ensures forall k :: i <= k < j ==> IsDigit(s[k])
    ensures j < |s| ==> !IsDigit(s[j])
    decreases |s| - i
  {
    if i < |s| && IsDigit(s[i]) then DigitsEnd(s, i + 1) else i
  }

  /** The price check as a scan: a run of at least one digit, then either
      the end, or a point followed by a run of one or two digits that reaches
      the end. */
  predicate PriceOk(s: string) {
    var j := DigitsEnd(s, 0);
    0 < j && (j == |s| || (s[j] == '.' && DigitsEnd(s, j + 1) == |s| && 2 <= |s| - j <= 3))
  }

  /** The price pattern read as its regular expression: digits only, or
      digits, a point and one or two digits. */
  ghost predicate PricePattern(s: string) {
    || (0 < |s| && AllDigits(s))
    || exists k :: 0 < k < |s| && s[k] == '.' && AllDigits(s[..k]) && 1 <= |s| - k - 1 <= 2 && AllDigits(s[k + 1..])
  }

  /** The scan accepts exactly the strings the regular expression matches. */
  lemma PriceOkIffPattern(s: string)
    ensures PriceOk(s) <==> PricePattern(s)
  {
    var j := DigitsEnd(s, 0);
    if PriceOk(s) {
      if j == |s| {
        assert AllDigits(s);
      } else {
        assert AllDigits(s[..j]);
        assert AllDigits(s[j + 1..]);
      }
    }
    if PricePattern(s) {
      if 0 < |s| && AllDigits(s) {
        assert j == |s|;
      } else {
        var k :| 0 < k < |s| && s[k] == '.' && AllDigits(s[..k]) && 1 <= |s| - k - 1 <= 2 && AllDigits(s[k + 1..]);
        assert forall m :: 0 <= m < k ==> IsDigit(s[m]) by {
          forall m | 0 <= m < k ensures IsDigit(s[m]) { assert s[..k][m] == s[m]; }
        }
        assert j == k;
        assert forall m :: k + 1 <= m < |s| ==> IsDigit(s[m]) by {
          forall m | k + 1 <= m < |s| ensures IsDigit(s[m]) { assert s[k + 1..][m - k - 1] == s[m]; }
        }
        assert DigitsEnd(s, k + 1) == |s|;
      }
    }
  }

  /** Concrete readings of the price rule: a trailing point, three
      decimals, a leading point and surrounding blanks are all refused. */
  lemma PriceExamples()
    ensures PriceOk("7") && PriceOk("12.5") && PriceOk("12.50")
    ensures !PriceOk("5.") && !PriceOk("5.123") && !PriceOk(".5") && !PriceOk(" 5") && !PriceOk("")
  {
    assert DigitsEnd("12.5", 3) == 4;
    assert DigitsEnd("12.50", 3) == 5;
    assert DigitsEnd("5.123", 2) == 5;
  }

  // ---- image: /\.(jpg|jpeg|png|gif)$/i on the file name ----

  /** `s` ends with `suffix` when both are compared ignoring ASCII case;
      `suffix` is written in lower case. */
  predicate EndsWithIgnoringCase(s: string, suffix: string) {
    |suffix| <= |s| && LowerStr(s[|s| - |suffix|..]) == suffix
  }

  /** `name` ends with a point followed by `ext`, ignoring case. */
  predicate HasExtension(name: string, ext: string) {
    EndsWithIgnoringCase(name, "." + ext)
  }

  predicate ImageNameOk(name: string) {
    HasExtension(name, "jpg") || HasExtension(name, "jpeg") || HasExtension(name, "png") || HasExtension(name, "gif")
  }

  /** A file must be selected and its name must carry an image extension. */
  predicate ImageOk(file: Option<string>) {
    file.Some? && ImageNameOk(file.value)
  }

  /** The position of the last point in `s`, if there is one. */
  function LastDot(s: string): (r: Option<nat>)
    ensures r.Some? ==> r.value < |s| && s[r.value] == '.' && forall k :: r.value < k < |s| ==> s[k] != '.'
    ensures r.None? ==> forall k :: 0 <= k < |s| ==> s[k] != '.'
  {
    if |s| == 0 then None
    else if s[|s| - 1] == '.' then Some(|s| - 1)
    else LastDot(s[..|s| - 1])
  }

  /** The text after the last point of `s`, or nothing when there is no point. */
  function Extension(s: string): (e: Option<string>)
    ensures e.Some? ==> |e.value| < |s| && s[|s| - |e.value| - 1] == '.' && e.value == s[|s| - |e.value|..]
    ensures e.Some? ==> forall k :: 0 <= k < |e.value| ==> e.value[k] != '.'
    ensures e.None? ==> forall k :: 0 <= k < |s| ==> s[k] != '.'
  {
    match LastDot(s)
    case None => None
    case Some(d) => Some(s[d + 1..])
  }

  /** Helper: a name ending in `.` + `ext`, for a lower-case `ext` without
      points, has `ext` as its extension. */
  lemma SuffixGivesExtension(s: string, ext: string)
    requires forall k :: 0 <= k < |ext| ==> 'a' <= ext[k] <= 'z'
    requires HasExtension(s, ext)
    ensures Extension(s).Some? && LowerStr(Extension(s).value) == ext
  {
    var start := |s| - |ext| - 1;
    var tail := s[start..];
    assert LowerStr(tail)[0] == '.';
    assert s[start] == '.';
    forall k | start < k < |s|
      ensures s[k] != '.'
    {
      assert LowerStr(tail)[k - start] == ext[k - start - 1];
    }
    var e := Extension(s).value;
    assert |e| == |ext|;
    forall k | 0 <= k < |ext|
      ensures LowerStr(e)[k] == ext[k]
    {
      assert e[k] == s[start + 1 + k] == tail[k + 1];
      assert LowerStr(tail)[k + 1] == ext[k];
    }
  }

  /** Helper: a name whose extension lower-cases to `ext` ends in `.` + `ext`. */
  lemma ExtensionGivesSuffix(s: string, ext: string)
    requires Extension(s).Some? && LowerStr(Extension(s).value) == ext
    ensures HasExtension(s, ext)
  {
    var e := Extension(s).value;
    var tail := s[|s| - |e| - 1..];
    var suffix := "." + ext;
    assert |tail| == |suffix| == |e| + 1;
    assert LowerStr(tail) == suffix by {
      forall k | 0 <= k < |suffix|
        ensures LowerStr(tail)[k] == suffix[k]
      {
        if k == 0 {
          assert tail[0] == '.';
        } else {
          assert tail[k] == e[k - 1];
          assert LowerStr(e)[k - 1] == ext[k - 1] == suffix[k];
        }
      }
    }
  }

  /** The suffix `.` + `ext` ends `s` exactly when the extension after the
      last point is `ext`, for a lower-case `ext` without points. */
  lemma EndsWithExtension(s: string, ext: string)
    requires forall k :: 0 <= k < |ext| ==> 'a' <= ext[k] <= 'z'
    ensures HasExtension(s, ext) <==> Extension(s).Some? && LowerStr(Extension(s).value) == ext
  {
    if HasExtension(s, ext) {
      SuffixGivesExtension(s, ext);
    }
    if Extension(s).Some? && LowerStr(Extension(s).value) == ext {
      ExtensionGivesSuffix(s, ext);
    }
  }

  predicate IsImageExtension(e: string) {
    e == "jpg" || e == "jpeg" || e == "png" || e == "gif"
  }

  /** The image rule stated through the file name's extension: there is a
      point, and the text after the last point is jpg, jpeg, png or gif in
      any mix of case. */
  lemma ImageNameIffExtension(name: string)
    ensures ImageNameOk(name) <==> Extension(name).Some? && IsImageExtension(LowerStr(Extension(name).value))
  {
    EndsWithExtension(name, "jpg");
    EndsWithExtension(name, "jpeg");
    EndsWithExtension(name, "png");
    EndsWithExtension(name, "gif");
  }

  /** Helper: a name with extension `ext` ends in the last letter of `ext`,
      in either case. */
  lemma ExtensionEndsName(name: string, ext: string)
    requires ext != []
    ensures HasExtension(name, ext) ==> Lower(name[|name| - 1]) == ext[|ext| - 1]
  {
    if HasExtension(name, ext) {
      var suffix := "." + ext;
      assert LowerStr(name[|name| - |suffix|..])[|suffix| - 1] == Lower(name[|name| - 1]);
    }
  }

  /** Concrete readings of the image rule: the case of the extension does
      not matter, only the last extension counts, and the point is required. */
  lemma ImageNameExamples()
    ensures ImageNameOk("photo.JPG")
    ensures !ImageNameOk("photo.jpg.txt")
    ensures !ImageNameOk("jpg")
  {
    assert ImageNameOk("photo.JPG") by {
      assert LowerStr("photo.JPG"[5..]) == ".jpg";
    }
    assert !ImageNameOk("photo.jpg.txt") by {
      var n := "photo.jpg.txt";
      assert Lower(n[12]) == 't';
      ExtensionEndsName(n, "jpg");
      ExtensionEndsName(n, "jpeg");
      ExtensionEndsName(n, "png");
      ExtensionEndsName(n, "gif");
    }
    assert !ImageNameOk("jpg") by {
      ImageNameIffExtension("jpg");
      assert "jpg"[0] != '.' && "jpg"[1] != '.' && "jpg"[2] != '.';
    }
  }

  // ---- the whole form ----

  /** `validateProductForm` returns true. */
  predicate IsValid(f: Form) {
    && NameOk(f.name)
    && PriceOk(f.price)
    && CategoryOk(f.category)
    && ImageOk(f.file)
    && DescriptionOk(f.description)
  }

  /** One failing check, each with its own warning text. */
  datatype Problem = BadName | BadPrice | BadCategory | MissingImage | BadImageType | BadDescription

  /** The position of the check in the order `validateProductForm` runs them. */
  function CheckOrder(p: Problem): nat {
    match p
    case BadName => 0
    case BadPrice => 1
    case BadCategory => 2
    case MissingImage => 3
    case BadImageType => 3
    case BadDescription => 4
  }

  /** The report of one check: empty when it passes. */
  function Report(ok: bool, p: Problem): (r: seq<Problem>)
    ensures |r| <= 1
    ensures forall q :: q in r <==> !ok && q == p
  {
    if ok then [] else [p]
  }

  /** The reports of the five checks, given their outcomes, in the order
      they run; the image check fails with one of two warnings. */
  function Reports(nameOk: bool, priceOk: bool, categoryOk: bool, noFile: bool, badType: bool, descriptionOk: bool): (r: seq<Problem>)
    requires !(noFile && badType)
    ensures r == [] <==> nameOk && priceOk && categoryOk && !noFile && !badType && descriptionOk
    ensures BadName in r <==> !nameOk
    ensures BadPrice in r <==> !priceOk
    ensures BadCategory in r <==> !categoryOk
    ensures MissingImage in r <==> noFile
    ensures BadImageType in r <==> badType
    ensures BadDescription in r <==> !descriptionOk
  {
    var a := Report(nameOk, BadName);
    var b := Report(priceOk, BadPrice);
    var c := Report(categoryOk, BadCategory);
    var d := if noFile then [MissingImage] else Report(!badType, BadImageType);
    var e := Report(descriptionOk, BadDescription);
    ConcatMembers(a, b, c, d, e);
    a + b + c + d + e
  }

  /** Every check runs; the failing ones are reported in the order they ran. */
  function Problems(f: Form): (r: seq<Problem>)
    ensures r == [] <==> IsValid(f)
    ensures BadName in r <==> !NameOk(f.name)
    ensures BadPrice in r <==> !PriceOk(f.price)
    ensures BadCategory in r <==> !CategoryOk(f.category)
    ensures MissingImage in r <==> f.file.None?
    ensures BadImageType in r <==> f.file.Some? && !ImageNameOk(f.file.value)
    ensures BadDescription in r <==> !DescriptionOk(f.description)
  {
    Reports(
      NameOk(f.name), PriceOk(f.price), CategoryOk(f.category),
      f.file.None?, f.file.Some? && !ImageNameOk(f.file.value),
      DescriptionOk(f.description))
  }

  /** Neighbouring reports appear in the order their checks run. */
  predicate InCheckOrder(r: seq<Problem>) {
    forall k :: 0 < k < |r| ==> CheckOrder(r[k - 1]) < CheckOrder(r[k])
  }

  /** Helper: appending the report of a later check keeps the order. */
  lemma ConcatInCheckOrder(a: seq<Problem>, b: seq<Problem>, bound: nat)
    requires InCheckOrder(a) && |b| <= 1
    requires forall q :: q in a ==> CheckOrder(q) < bound
    requires forall q :: q in b ==> CheckOrder(q) == bound
    ensures InCheckOrder(a + b)
  {
    if |a| > 0 && |b| == 1 {
      assert (a + b)[|a| - 1] == a[|a| - 1] && (a + b)[|a|] == b[0];
    }
  }

  /** Helper: the joined reports are in check order. */
  lemma ReportsInCheckOrder(nameOk: bool, priceOk: bool, categoryOk: bool, noFile: bool, badType: bool, descriptionOk: bool)
    requires !(noFile && badType)
    ensures InCheckOrder(Reports(nameOk, priceOk, categoryOk, noFile, badType, descriptionOk))
  {
    var a := Report(nameOk, BadName);
    var b := Report(priceOk, BadPrice);
    var c := Report(categoryOk, BadCategory);
    var d := if noFile then [MissingImage] else Report(!badType, BadImageType);
    var e := Report(descriptionOk, BadDescription);
    ConcatInCheckOrder(a, b, 1);
    ConcatMembers(a, b, [], [], []);
    ConcatInCheckOrder(a + b, c, 2);
    ConcatMembers(a, b, c, [], []);
    ConcatInCheckOrder(a + b + c, d, 3);
    ConcatMembers(a, b, c, d, []);
    ConcatInCheckOrder(a + b + c + d, e, 4);
  }

  /** The failing checks are reported in the order `validateProductForm`
      runs them: name, price, category, image, description. */
  lemma ProblemsInCheckOrder(f: Form)
    ensures InCheckOrder(Problems(f))
  {
    ReportsInCheckOrder(
      NameOk(f.name), PriceOk(f.price), CategoryOk(f.category),
      f.file.None?, f.file.Some? && !ImageNameOk(f.file.value),
      DescriptionOk(f.description));
  }

  /** Helper: membership in five joined reports. */
  lemma ConcatMembers(a: seq<Problem>, b: seq<Problem>, c: seq<Problem>, d: seq<Problem>, e: seq<Problem>)
    ensures forall q :: q in a + b + c + d + e <==> q in a || q in b || q in c || q in d || q in e
  {
  }

  /** Each failing check replaces the warning banner, so the one left on
      screen belongs to the failing check that ran last. */
  function ShownProblem(f: Form): (p: Problem)
    requires !IsValid(f)
    ensures p in Problems(f)
    ensures forall q :: q in Problems(f) ==> CheckOrder(q) <= CheckOrder(p)
  {
    var r := Problems(f);
    ProblemsInCheckOrder(f);
    LastIsLatest(r);
    r[|r| - 1]
  }

  /** Helper: in a report in check order, the last entry belongs to the
      latest check. */
  lemma LastIsLatest(r: seq<Problem>)
    requires InCheckOrder(r) && r != []
    ensures forall q :: q in r ==> CheckOrder(q) <= CheckOrder(r[|r| - 1])
  {
    forall i | 0 <= i < |r| - 1
      ensures CheckOrder(r[i]) < CheckOrder(r[|r| - 1])
    {
      OrderedPrefix(r, i, |r| - 1);
    }
  }

  /** Helper: neighbour-wise increasing order implies order of any two entries. */
  lemma {:induction false} OrderedPrefix(r: seq<Problem>, i: nat, j: nat)
    requires InCheckOrder(r)
    requires i < j < |r|
    ensures CheckOrder(r[i]) < CheckOrder(r[j])
    decreases j - i
  {
    if i + 1 < j {
      OrderedPrefix(r, i + 1, j);
    }
  }

  /** Without a selected file the form is refused whatever the other
      fields hold. */
  lemma MissingFileRefused(f: Form)
    requires f.file.None?
    ensures !IsValid(f) && MissingImage in Problems(f)
  {
  }
}
