/**
 * GoogleBloggerService.GenerateHtmlAsync: the Blogger announcement is a
 * template whose ##KEY## tokens are replaced, one key after another, by
 * values taken from the publish state. Every main key has a companion
 * ##EXISTS_KEY## whose value hides the template's element for that key when
 * the main value is blank or the "#" placeholder.
 */
module BloggerTemplate {
  import opened Wrappers
  import opened DotNetText
  import opened Publish

  const TemplateFileName := "blogger-template.html"
  const TemplateUnreadable := "Unable to read blogger release template file: " + TemplateFileName
  const HideStyle := "style=\"display: none !important;\""
  const Placeholder := "#"
  const CoverPrefix := "data:image/png;base64,"
  const ChapterPrefix := "Cap\U{00ED}tulo "
  const LineBreak := "<br>"

  /** The main keys of the template, one per value the announcement shows. */
  datatype Field =
    | ReleaseTitle | ChapterTitle | ChapterNumber | VolumeNumber | Message
    | MegaZipLink | MegaPdfLink | BoxZipLink | BoxPdfLink | DriveZipLink | DrivePdfLink | MangaDexLink
    | BoxPdfReader | CoverImage
  {
    /** The keys whose value is a link that falls back to the "#" placeholder. */
    predicate IsDownloadLink() {
      MegaZipLink? || MegaPdfLink? || BoxZipLink? || BoxPdfLink? || DriveZipLink? || DrivePdfLink? || MangaDexLink?
    }
  }

  /** The main keys in the order the service's dictionary lists them. */
  const Fields: seq<Field> := [
    ReleaseTitle, ChapterTitle, ChapterNumber, VolumeNumber, Message,
    MegaZipLink, MegaPdfLink, BoxZipLink, BoxPdfLink, DriveZipLink, DrivePdfLink, MangaDexLink,
    BoxPdfReader, CoverImage]

  function Position(f: Field): (i: nat)
    ensures i < |Fields| && Fields[i] == f
  {
    match f
    case ReleaseTitle => 0
    case ChapterTitle => 1
    case ChapterNumber => 2
    case VolumeNumber => 3
    case Message => 4
    case MegaZipLink => 5
    case MegaPdfLink => 6
    case BoxZipLink => 7
    case BoxPdfLink => 8
    case DriveZipLink => 9
    case DrivePdfLink => 10
    case MangaDexLink => 11
    case BoxPdfReader => 12
    case CoverImage => 13
  }

  function Name(f: Field): string {
    match f
    case ReleaseTitle => "RELEASE_TITLE"
    case ChapterTitle => "CHAPTER_TITLE"
    case ChapterNumber => "CHAPTER_NUMBER"
    case VolumeNumber => "VOLUME_NUMBER"
    case Message => "MESSAGE"
    case MegaZipLink => "MEGA_ZIP_LINK"
    case MegaPdfLink => "MEGA_PDF_LINK"
    case BoxZipLink => "BOX_ZIP_LINK"
    case BoxPdfLink => "BOX_PDF_LINK"
    case DriveZipLink => "GOOGLE_DRIVE_ZIP_LINK"
    case DrivePdfLink => "GOOGLE_DRIVE_PDF_LINK"
    case MangaDexLink => "MANGADEX_LINK"
    case BoxPdfReader => "BOX_PDF_READER"
    case CoverImage => "COVER_IMAGE"
  }

  /** A name wrapped in the double-hash delimiters: Token("MESSAGE") is "##MESSAGE##". */
  function Token(name: string): string {
    "##" + name + "##"
  }

  function MainKey(f: Field): string {
    Token(Name(f))
  }

  function CompanionKey(f: Field): string {
    Token("EXISTS_" + Name(f))
  }

  /** A delimited token: "##", a non-empty name without '#', "##". */
  ghost predicate IsToken(k: string) {
    && |k| >= 5
    && k[0] == '#' && k[1] == '#' && k[|k| - 2] == '#' && k[|k| - 1] == '#'
    && forall i :: 2 <= i < |k| - 2 ==> k[i] != '#'
  }

  function LinkOf(f: Field, links: Links): Option<string>
    requires f.IsDownloadLink()
  {
    match f
    case MegaZipLink => links.megaZip
    case MegaPdfLink => links.megaPdf
    case BoxZipLink => links.boxZip
    case BoxPdfLink => links.boxPdf
    case DriveZipLink => links.driveZip
    case DrivePdfLink => links.drivePdf
    case MangaDexLink => links.mangaDexLink
  }

  function GetOr(o: Option<string>, fallback: string): string {
    match o
    case None => fallback
    case Some(v) => v
  }

  /**
   * The value each main key's lambda takes from the state; cover is the
   * base64 cover image the service captures in the cover lambda.
   */
  function FieldValue(f: Field, state: PublishState, cover: string): (r: string)
    ensures f == ReleaseTitle ==> r == state.info.displayTitle
    ensures f == ChapterTitle && state.info.chapterName.None? ==> r == ChapterPrefix + state.info.chapterNumber
    ensures f == ChapterTitle && state.info.chapterName.Some? ==> r == state.info.chapterName.value
    ensures f == ChapterNumber ==> r == state.info.chapterNumber
    ensures f == VolumeNumber && state.info.chapterVolume.None? ==> r == "?"
    ensures f == VolumeNumber && state.info.chapterVolume.Some? ==> r == state.info.chapterVolume.value
    ensures f == Message && state.info.message.None? ==> r == ""
    ensures f == Message && state.info.message.Some? ==> r == Replace(state.info.message.value, "\n", LineBreak)
    ensures f == Message ==> '\n' !in r
    ensures f == Message && state.info.message.Some? && '\n' !in state.info.message.value ==> r == state.info.message.value
    ensures f.IsDownloadLink() && LinkOf(f, state.links).None? ==> r == Placeholder
    ensures f.IsDownloadLink() && LinkOf(f, state.links).Some? ==> r == LinkOf(f, state.links).value
    ensures f == BoxPdfReader && state.links.boxPdfReader.None? ==> r == ""
    ensures f == BoxPdfReader && state.links.boxPdfReader.Some? ==> r == state.links.boxPdfReader.value
    ensures f == CoverImage ==> r == CoverPrefix + cover
  {
    match f
    case ReleaseTitle => state.info.displayTitle
    case ChapterTitle =>
      if state.info.chapterName.Some? then state.info.chapterName.value
      else ChapterPrefix + state.info.chapterNumber
    case ChapterNumber => state.info.chapterNumber
    case VolumeNumber => GetOr(state.info.chapterVolume, "?")
    case Message =>
      (match state.info.message
       case None => ""
       case Some(m) =>
         ReplaceRemovesChar(m, '\n', LineBreak);
         OccursChar('\n', m);
         ReplaceUnchanged(m, "\n", LineBreak);
         Replace(m, "\n", LineBreak))
    case BoxPdfReader => GetOr(state.links.boxPdfReader, "")
    case CoverImage => CoverPrefix + cover
    case _ => GetOr(LinkOf(f, state.links), Placeholder)
  }

  /** A value the template treats as missing: blank or the "#" placeholder. */
  predicate BlankOrPlaceholder(s: string) {
    IsBlank(s) || s == Placeholder
  }

  /** The value of a companion ##EXISTS_## key, from its main key's value. */
  function ExistsValue(mainValue: string): (r: string)
    ensures r == HideStyle || r == ""
    ensures r == HideStyle <==> BlankOrPlaceholder(mainValue)
  {
    if IsNullOrWhiteSpace(Some(mainValue)) || mainValue == Placeholder then HideStyle else ""
  }

  /**
   * The Func<PublishState, string> stored under a key: the lambda of a main
   * key, or the companion lambda that wraps the main one.
   */
  datatype StateFunc = FieldFunc(field: Field, cover: string) | ExistsFunc(main: StateFunc)
  {
    function Invoke(state: PublishState): string {
      match this
      case FieldFunc(f, cover) => FieldValue(f, state, cover)
      case ExistsFunc(main) => ExistsValue(main.Invoke(state))
    }
  }

  datatype KeyMap = KeyMap(key: string, value: StateFunc)

  /** The main dictionary of the service, in its order. */
  function MainKeyMaps(cover: string): (ms: seq<KeyMap>)
    ensures NonEmptyKeys(ms)
  {
    seq(|Fields|, i requires 0 <= i < |Fields| => KeyMap(MainKey(Fields[i]), FieldFunc(Fields[i], cover)))
  }

  /** The companion key: "##EXISTS_" followed by the main key without its leading '#'s. */
  function ExistsKey(key: string): string {
    "##EXISTS_" + TrimStart(key, '#')
  }

  function Companion(m: KeyMap): KeyMap {
    KeyMap(ExistsKey(m.key), ExistsFunc(m.value))
  }

  /** Every main entry followed immediately by its companion, in the main order. */
  function WithCompanions(mains: seq<KeyMap>): (all: seq<KeyMap>)
    ensures |all| == 2 * |mains|
    ensures NonEmptyKeys(mains) ==> NonEmptyKeys(all)
  {
    if mains == [] then [] else [mains[0], Companion(mains[0])] + WithCompanions(mains[1..])
  }

  /** Main entry i sits at 2i and its companion right after it. */
  lemma {:induction false} WithCompanionsAt(mains: seq<KeyMap>, i: nat)
    requires i < |mains|
    ensures WithCompanions(mains)[2 * i] == mains[i]
    ensures WithCompanions(mains)[2 * i + 1] == Companion(mains[i])
  {
    if i > 0 {
      WithCompanionsAt(mains[1..], i - 1);
    }
  }

  /** Adding one main entry appends it and its companion. */
  lemma {:induction false} WithCompanionsAppend(mains: seq<KeyMap>, m: KeyMap)
    ensures WithCompanions(mains + [m]) == WithCompanions(mains) + [m, Companion(m)]
  {
    if mains == [] {
      assert [m][1..] == [];
    } else {
      assert (mains + [m])[1..] == mains[1..] + [m];
      WithCompanionsAppend(mains[1..], m);
    }
  }

  function KeyMaps(cover: string): (ms: seq<KeyMap>)
    ensures NonEmptyKeys(ms)
  {
    WithCompanions(MainKeyMaps(cover))
  }

  /** The keys of ms can be given to string.Replace. */
  ghost predicate NonEmptyKeys(ms: seq<KeyMap>) {
    forall i :: 0 <= i < |ms| ==> ms[i].key != []
  }

  ghost predicate DistinctKeys(ms: seq<KeyMap>) {
    forall p, q :: 0 <= p < q < |ms| ==> ms[p].key != ms[q].key
  }

  ghost predicate TokenKeys(ms: seq<KeyMap>) {
    forall p :: 0 <= p < |ms| ==> IsToken(ms[p].key)
  }

  // ----- The key names -----

  lemma NameStart(f: Field)
    ensures Name(f) != [] && Name(f)[0] != 'E'
  {
  }

  lemma NameHashFree(f: Field)
    ensures '#' !in Name(f)
  {
    match f
    case ReleaseTitle =>
    case ChapterTitle =>
    case ChapterNumber =>
    case VolumeNumber =>
    case Message =>
    case MegaZipLink =>
    case MegaPdfLink =>
    case BoxZipLink =>
    case BoxPdfLink =>
    case DriveZipLink =>
    case DrivePdfLink =>
    case MangaDexLink =>
    case BoxPdfReader =>
    case CoverImage =>
  }

  lemma NameInjective(f: Field, g: Field)
    ensures Name(f) == Name(g) <==> f == g
  {
  }

  lemma TokenInjective(a: string, b: string)
    ensures Token(a) == Token(b) <==> a == b
  {
    assert a == Token(a)[2..|Token(a)| - 2];
    assert b == Token(b)[2..|Token(b)| - 2];
  }

  /** A token's companion key is the token of "EXISTS_" and the same name. */
  lemma TokenShape(n: string)
    requires n != [] && n[0] != '#' && '#' !in n
    ensures IsToken(Token(n))
    ensures ExistsKey(Token(n)) == Token("EXISTS_" + n)
  {
    assert forall i :: 0 <= i < |n| ==> n[i] != '#';
    var k := Token(n);
    var r := TrimStart(k, '#');
    TrimStartShape(k, '#');
    assert k[2] == n[0];
    assert |k| - |r| == 2;
    assert r == n + "##";
  }

  lemma NameTokens(f: Field)
    ensures IsToken(MainKey(f)) && IsToken(CompanionKey(f))
    ensures ExistsKey(MainKey(f)) == CompanionKey(f)
  {
    NameStart(f);
    NameHashFree(f);
    TokenShape(Name(f));
    var e := "EXISTS_" + Name(f);
    assert e[0] == 'E';
    assert '#' !in e;
    TokenShape(e);
  }

  lemma FieldsDistinct()
    ensures forall i, j :: 0 <= i < j < |Fields| ==> Fields[i] != Fields[j]
  {
  }

  /** The key of a field, or of its companion. */
  function KeyOf(f: Field, companion: bool): string {
    Token(KeyName(f, companion))
  }

  /** Different fields, or a main key and a companion, never share a key. */
  lemma KeyOfInjective(f: Field, b: bool, g: Field, c: bool)
    ensures KeyOf(f, b) == KeyOf(g, c) <==> f == g && b == c
  {
    TokenInjective(KeyName(f, b), KeyName(g, c));
    KeyNameInjective(f, b, g, c);
  }

  /** The name inside the key of a field, or of its companion. */
  function KeyName(f: Field, companion: bool): string {
    if companion then "EXISTS_" + Name(f) else Name(f)
  }

  lemma KeyNameInjective(f: Field, b: bool, g: Field, c: bool)
    ensures KeyName(f, b) == KeyName(g, c) <==> f == g && b == c
  {
    var x, y := KeyName(f, b), KeyName(g, c);
    if b != c {
      NameStart(if b then g else f);
      assert x[0] != y[0];
    } else {
      NameInjective(f, g);
      if b {
        assert Name(f) == x[7..] && Name(g) == y[7..];
      }
    }
  }

  /** Entry p of the key map is main key p / 2 for even p and its companion for odd p. */
  lemma KeyMapsKey(cover: string, p: nat)
    requires p < 2 * |Fields|
    ensures |KeyMaps(cover)| == 2 * |Fields|
    ensures KeyMaps(cover)[p].key == KeyOf(Fields[p / 2], p % 2 == 1)
  {
    var i := p / 2;
    KeyMapsAt(cover, i);
    if p % 2 == 0 {
      assert p == 2 * i;
    } else {
      assert p == 2 * i + 1;
    }
  }

  /** Entry 2i of the key map is main key i, entry 2i + 1 its companion. */
  lemma KeyMapsAt(cover: string, i: nat)
    requires i < |Fields|
    ensures |KeyMaps(cover)| == 2 * |Fields|
    ensures KeyMaps(cover)[2 * i] == KeyMap(MainKey(Fields[i]), FieldFunc(Fields[i], cover))
    ensures KeyMaps(cover)[2 * i + 1] == KeyMap(CompanionKey(Fields[i]), ExistsFunc(FieldFunc(Fields[i], cover)))
  {
    WithCompanionsAt(MainKeyMaps(cover), i);
    NameTokens(Fields[i]);
  }

  /** The 28 keys are delimited tokens and no two are equal. */
  lemma KeyMapsWellFormed(cover: string)
    ensures TokenKeys(KeyMaps(cover)) && DistinctKeys(KeyMaps(cover))
  {
    KeyMapsTokens(cover);
    KeyMapsDistinct(cover);
  }

  lemma KeyMapsTokens(cover: string)
    ensures TokenKeys(KeyMaps(cover))
  {
    var ms := KeyMaps(cover);
    forall p | 0 <= p < |ms| ensures IsToken(ms[p].key) {
      KeyMapsKey(cover, p);
      NameTokens(Fields[p / 2]);
    }
  }

  lemma KeyMapsDistinct(cover: string)
    ensures DistinctKeys(KeyMaps(cover))
  {
    var ms := KeyMaps(cover);
    FieldsDistinct();
    forall p, q | 0 <= p < q < |ms| ensures ms[p].key != ms[q].key {
      KeyMapsKey(cover, p);
      KeyMapsKey(cover, q);
      KeyOfInjective(Fields[p / 2], p % 2 == 1, Fields[q / 2], q % 2 == 1);
      assert p / 2 != q / 2 || p % 2 != q % 2;
    }
  }

  /** The first i main entries with their companions are the first 2i entries of the whole map. */
  lemma {:induction false} WithCompanionsPrefix(mains: seq<KeyMap>, i: nat)
    requires i <= |mains|
    ensures WithCompanions(mains[..i]) == WithCompanions(mains)[..2 * i]
  {
    if i > 0 {
      var head := [mains[0], Companion(mains[0])];
      assert mains[..i][0] == mains[0];
      assert mains[..i][1..] == mains[1..][..i - 1];
      assert WithCompanions(mains[..i]) == head + WithCompanions(mains[1..][..i - 1]);
      WithCompanionsPrefix(mains[1..], i - 1);
      assert WithCompanions(mains) == head + WithCompanions(mains[1..]);
      assert WithCompanions(mains)[..2 * i] == head + WithCompanions(mains[1..])[..2 * (i - 1)];
    }
  }

  /** One more main entry adds that entry and its companion. */
  lemma WithCompanionsStep(mains: seq<KeyMap>, i: nat)
    requires i < |mains|
    ensures WithCompanions(mains[..i + 1]) == WithCompanions(mains[..i]) + [mains[i]] + [Companion(mains[i])]
  {
    WithCompanionsAppend(mains[..i], mains[i]);
    assert mains[..i + 1] == mains[..i] + [mains[i]];
  }

  /** Neither the key added for main entry i nor its companion's is already in the dictionary. */
  lemma AddsFreshKeys(cover: string, i: nat)
    requires i < |Fields|
    ensures forall p :: 0 <= p < 2 * i ==>
      WithCompanions(MainKeyMaps(cover)[..i])[p].key != MainKeyMaps(cover)[i].key
    ensures forall p :: 0 <= p < 2 * i + 1 ==>
      (WithCompanions(MainKeyMaps(cover)[..i]) + [MainKeyMaps(cover)[i]])[p].key != Companion(MainKeyMaps(cover)[i]).key
  {
    var mains := MainKeyMaps(cover);
    KeyMapsDistinct(cover);
    WithCompanionsPrefix(mains, i);
    WithCompanionsAt(mains, i);
  }

  /**
   * Builds the dictionary as the service does: for each main entry, in order,
   * Add the entry and then Add its companion. The keys are distinct, so no
   * Add meets a key already present (Dictionary.Add would throw).
   */
  method CreateReplacingTemplateKeyMaps(cover: string) returns (allKeyMaps: seq<KeyMap>)
    ensures allKeyMaps == KeyMaps(cover)
    ensures |allKeyMaps| == 2 * |Fields|
    ensures TokenKeys(allKeyMaps) && DistinctKeys(allKeyMaps)
  {
    var mainKeyMaps := MainKeyMaps(cover);
    KeyMapsWellFormed(cover);
    allKeyMaps := [];
    for i := 0 to |mainKeyMaps|
      invariant allKeyMaps == WithCompanions(mainKeyMaps[..i])
    {
      var keyMap := mainKeyMaps[i];
      WithCompanionsStep(mainKeyMaps, i);
      AddsFreshKeys(cover, i);
      assert forall p :: 0 <= p < |allKeyMaps| ==> allKeyMaps[p].key != keyMap.key;
      allKeyMaps := allKeyMaps + [keyMap];
      assert forall p :: 0 <= p < |allKeyMaps| ==> allKeyMaps[p].key != Companion(keyMap).key;
      allKeyMaps := allKeyMaps + [Companion(keyMap)];
    }
    assert mainKeyMaps[..|mainKeyMaps|] == mainKeyMaps;
  }

  // ----- Rendering -----

  /** Left fold of string.Replace over the key map, one key after another. */
  function Render(template: string, keyMaps: seq<KeyMap>, state: PublishState): string
    requires NonEmptyKeys(keyMaps)
    decreases |keyMaps|
  {
    if keyMaps == [] then template
    else Render(Replace(template, keyMaps[0].key, keyMaps[0].value.Invoke(state)), keyMaps[1..], state)
  }

  /**
   * ReplaceTemplateKeys: builds the key map and replaces every occurrence of
   * each key in the template by its value, in the key map's order.
   */
  method ReplaceTemplateKeys(template: string, state: PublishState, cover: string) returns (rendered: string)
    ensures rendered == Render(template, KeyMaps(cover), state)
  {
    var keyMaps := CreateReplacingTemplateKeyMaps(cover);
    rendered := template;
    for i := 0 to |keyMaps|
      invariant Render(rendered, keyMaps[i..], state) == Render(template, keyMaps, state)
    {
      assert keyMaps[i..][1..] == keyMaps[i + 1..];
      rendered := Replace(rendered, keyMaps[i].key, keyMaps[i].value.Invoke(state));
    }
  }

  /** GetBloggerTemplateAsync: None stands for a template file that could not be read. */
  function GetBloggerTemplate(file: Option<string>): (r: Result<string, seq<string>>)
    ensures r.Failure? <==> file.None?
    ensures r.Failure? ==> r.error == [TemplateUnreadable]
    ensures r.Success? ==> r.value == file.value
  {
    match file
    case None => Failure([TemplateUnreadable])
    case Some(text) => Success(text)
  }

  /**
   * GenerateHtmlAsync: a template that cannot be read is the only failure it
   * returns; otherwise the rendered template. cover is the base64 image the
   * image service makes from the state's cover file. The exceptions that
   * ImageService.CreateBase64File can throw are left out.
   */
  method GenerateHtml(templateFile: Option<string>, state: PublishState, cover: string)
    returns (r: Result<string, seq<string>>)
    ensures templateFile.None? ==> r == Failure([TemplateUnreadable])
    ensures templateFile.Some? ==> r == Success(Render(templateFile.value, KeyMaps(cover), state))
  {
    var templateResult := GetBloggerTemplate(templateFile);
    if templateResult.Failure? {
      return templateResult;
    }
    var html := ReplaceTemplateKeys(templateResult.value, state, cover);
    r := Success(html);
  }

  // ----- What rendering does -----

  /** A template in which no key occurs comes back unchanged. */
  lemma {:induction false} RenderWithoutKeys(t: string, ms: seq<KeyMap>, state: PublishState)
    requires NonEmptyKeys(ms)
    requires forall i :: 0 <= i < |ms| ==> !Occurs(ms[i].key, t)
    ensures Render(t, ms, state) == t
    decreases |ms|
  {
    if ms != [] {
      ReplaceUnchanged(t, ms[0].key, ms[0].value.Invoke(state));
      RenderWithoutKeys(t, ms[1..], state);
    }
  }

  /** Rendering with a key map is rendering with its first k entries and then with the rest. */
  lemma {:induction false} RenderSplit(t: string, ms: seq<KeyMap>, k: nat, state: PublishState)
    requires NonEmptyKeys(ms) && k <= |ms|
    ensures Render(t, ms, state) == Render(Render(t, ms[..k], state), ms[k..], state)
    decreases k
  {
    if k > 0 {
      assert ms[..k][1..] == ms[1..][..k - 1];
      RenderSplit(Replace(t, ms[0].key, ms[0].value.Invoke(state)), ms[1..], k - 1, state);
    }
  }

  /** A token occurs in another token only when the two are the same. */
  lemma TokenInToken(p: string, s: string)
    requires IsToken(p) && IsToken(s) && Occurs(p, s)
    ensures p == s
  {
    var i :| OccursAt(p, s, i);
    assert s[i] == s[i..i + |p|][0] == p[0];
    assert s[i + 1] == s[i..i + |p|][1] == p[1];
    assert i == 0;
    assert s[|p| - 2] == s[..|p|][|p| - 2] == p[|p| - 2];
    assert |p| == |s|;
    assert p == s[..|s|];
  }

  /** No two adjacent '#'. */
  predicate NoDoubleHash(v: string) {
    forall i :: 0 <= i < |v| - 1 ==> !(v[i] == '#' && v[i + 1] == '#')
  }

  /**
   * Text that cannot hold any key, since every key starts with "##" and has at
   * least five characters: a single '#', as in a link's fragment or a hashtag,
   * is allowed.
   */
  predicate HoldsNoKey(v: string) {
    |v| < 5 || NoDoubleHash(v)
  }

  /** A token cannot occur in text that holds no key. */
  lemma TokenNotIn(k: string, v: string)
    requires IsToken(k) && HoldsNoKey(v)
    ensures !Occurs(k, v)
  {
    if |k| <= |v| {
      forall i | 0 <= i && i + |k| <= |v| ensures !OccursAt(k, v, i) {
        assert v[i..i + |k|][0] == v[i] && v[i..i + |k|][1] == v[i + 1];
      }
    }
  }

  /** Text without any '#' has no two adjacent. */
  lemma NoHashNoDoubleHash(v: string)
    requires '#' !in v
    ensures NoDoubleHash(v)
  {
    assert forall i :: 0 <= i < |v| ==> v[i] in v;
  }

  /** The hide style can be inserted without creating a key. */
  lemma HideStyleHoldsNoKey()
    ensures NoDoubleHash(HideStyle)
  {
    assert '#' !in HideStyle;
    NoHashNoDoubleHash(HideStyle);
  }

  lemma NoDoubleHashAppend(a: string, b: string)
    requires NoDoubleHash(a) && NoDoubleHash(b)
    requires a == [] || b == [] || a[|a| - 1] != '#' || b[0] != '#'
    ensures NoDoubleHash(a + b)
  {
    var ab := a + b;
    forall i | 0 <= i < |ab| - 1 ensures !(ab[i] == '#' && ab[i + 1] == '#') {
      if i + 1 < |a| {
        assert ab[i] == a[i] && ab[i + 1] == a[i + 1];
      } else if i + 1 == |a| {
        assert ab[i] == a[|a| - 1] && ab[i + 1] == b[0];
      } else {
        assert ab[i] == b[i - |a|] && ab[i + 1] == b[i - |a| + 1];
      }
    }
  }

  /**
   * Text that cannot join its neighbour into a key: no two adjacent '#', and
   * no '#' on the side that touches the neighbour.
   */
  predicate SafeBefore(a: string) {
    NoDoubleHash(a) && (a == [] || a[|a| - 1] != '#')
  }

  predicate SafeAfter(b: string) {
    NoDoubleHash(b) && (b == [] || b[0] != '#')
  }

  /** No occurrence of a key starts in the text before a SafeBefore boundary and ends after it. */
  lemma NoKeyAcrossBefore(a: string, rest: string, k: string)
    requires IsToken(k) && SafeBefore(a)
    ensures forall i :: 0 <= i < |a| < i + |k| ==> !OccursAt(k, a + rest, i)
  {
    var s := a + rest;
    forall i | 0 <= i < |a| < i + |k| ensures !OccursAt(k, s, i) {
      if i + |k| <= |s| {
        assert s[i..i + |k|][0] == s[i] && s[i..i + |k|][1] == s[i + 1];
        assert s[i] == a[i];
        if i + 1 < |a| {
          assert s[i + 1] == a[i + 1];
        }
      }
    }
  }

  /** No occurrence of a key starts before a SafeAfter text and ends in it. */
  lemma NoKeyAcrossAfter(m: string, b: string, k: string)
    requires IsToken(k) && SafeAfter(b)
    ensures forall i :: 0 <= i < |m| < i + |k| ==> !OccursAt(k, m + b, i)
  {
    var s := m + b;
    forall i | 0 <= i < |m| < i + |k| ensures !OccursAt(k, s, i) {
      if i + |k| <= |s| {
        var e := i + |k| - 2;
        assert s[i..i + |k|][|k| - 2] == s[e] && s[i..i + |k|][|k| - 1] == s[e + 1];
        assert s[e + 1] == b[e + 1 - |m|];
        if e >= |m| {
          assert s[e] == b[e - |m|];
        }
      }
    }
  }

  /** One key's Replace keeps safe text before the rest as it is. */
  lemma ReplaceBefore(a: string, rest: string, k: string, v: string)
    requires IsToken(k) && SafeBefore(a)
    ensures k != []
    ensures Replace(a + rest, k, v) == a + Replace(rest, k, v)
  {
    NoKeyAcrossBefore(a, rest, k);
    ReplaceAppend(a, rest, k, v);
    TokenNotIn(k, a);
    ReplaceUnchanged(a, k, v);
  }

  /** One key's Replace keeps safe text after m as it is. */
  lemma ReplaceAfter(m: string, b: string, k: string, v: string)
    requires IsToken(k) && SafeAfter(b)
    ensures k != []
    ensures Replace(m + b, k, v) == Replace(m, k, v) + b
  {
    NoKeyAcrossAfter(m, b, k);
    ReplaceAppend(m, b, k, v);
    TokenNotIn(k, b);
    ReplaceUnchanged(b, k, v);
  }

  /** One key's Replace keeps the safe text on both sides of m. */
  lemma ReplaceInContext(a: string, m: string, b: string, k: string, v: string)
    requires IsToken(k) && SafeBefore(a) && SafeAfter(b)
    ensures k != []
    ensures Replace(a + m + b, k, v) == a + Replace(m, k, v) + b
  {
    assert a + m + b == a + (m + b);
    ReplaceBefore(a, m + b, k, v);
    ReplaceAfter(m, b, k, v);
  }

  /**
   * The text around a key is kept: a + m + b renders as a, then m rendered,
   * then b, when a and b cannot join with their neighbours into a key.
   */
  lemma {:induction false} RenderInContext(a: string, m: string, b: string, ms: seq<KeyMap>, state: PublishState)
    requires TokenKeys(ms) && SafeBefore(a) && SafeAfter(b)
    ensures NonEmptyKeys(ms)
    ensures Render(a + m + b, ms, state) == a + Render(m, ms, state) + b
    decreases |ms|
  {
    if ms != [] {
      var k, v := ms[0].key, ms[0].value.Invoke(state);
      ReplaceInContext(a, m, b, k, v);
      RenderInContext(a, Replace(m, k, v), b, ms[1..], state);
    }
  }

  /** Rendering a key with the key map up to that key yields the key's value. */
  lemma RenderKeyPrefix(ms: seq<KeyMap>, j: nat, state: PublishState)
    requires TokenKeys(ms) && DistinctKeys(ms) && j < |ms|
    ensures NonEmptyKeys(ms[..j + 1])
    ensures Render(ms[j].key, ms[..j + 1], state) == ms[j].value.Invoke(state)
  {
    var t, v := ms[j].key, ms[j].value.Invoke(state);
    var pre := ms[..j + 1];
    RenderSplit(t, pre, j, state);
    assert pre[..j] == ms[..j];
    forall i | 0 <= i < j ensures !Occurs(ms[..j][i].key, t) {
      if Occurs(ms[i].key, t) {
        TokenInToken(ms[i].key, t);
      }
    }
    RenderWithoutKeys(t, ms[..j], state);
    assert pre[j..] == [ms[j]];
    ReplaceWhole(t, v);
  }

  /** Rendering a template that is exactly one key yields that key's value, when no later key occurs in it. */
  lemma RenderKeyAlone(ms: seq<KeyMap>, j: nat, state: PublishState)
    requires TokenKeys(ms) && DistinctKeys(ms) && j < |ms|
    requires forall k :: j < k < |ms| ==> !Occurs(ms[k].key, ms[j].value.Invoke(state))
    ensures Render(ms[j].key, ms, state) == ms[j].value.Invoke(state)
  {
    RenderThroughKey(ms, j, state);
    RenderWithoutKeys(ms[j].value.Invoke(state), ms[j + 1..], state);
  }

  /** Rendering key j turns it into its value, which the keys after j then render. */
  lemma RenderThroughKey(ms: seq<KeyMap>, j: nat, state: PublishState)
    requires TokenKeys(ms) && DistinctKeys(ms) && j < |ms|
    ensures NonEmptyKeys(ms) && NonEmptyKeys(ms[j + 1..])
    ensures Render(ms[j].key, ms, state) == Render(ms[j].value.Invoke(state), ms[j + 1..], state)
  {
    RenderSplit(ms[j].key, ms, j + 1, state);
    RenderKeyPrefix(ms, j, state);
  }

  /** A template that is exactly one of the 28 keys renders to that key's value, when the value cannot hold a key. */
  lemma RenderedEntry(cover: string, p: nat, state: PublishState)
    requires p < |KeyMaps(cover)|
    requires HoldsNoKey(KeyMaps(cover)[p].value.Invoke(state))
    ensures Render(KeyMaps(cover)[p].key, KeyMaps(cover), state) == KeyMaps(cover)[p].value.Invoke(state)
  {
    var ms := KeyMaps(cover);
    KeyMapsWellFormed(cover);
    var v := ms[p].value.Invoke(state);
    forall k | p < k < |ms| ensures !Occurs(ms[k].key, v) {
      TokenNotIn(ms[k].key, v);
    }
    RenderKeyAlone(ms, p, state);
  }

  /**
   * A template that is one main key, or one companion key, renders to that
   * key's value, provided the value cannot contain a key.
   */
  lemma RenderedField(f: Field, state: PublishState, cover: string)
    requires HoldsNoKey(FieldValue(f, state, cover))
    ensures Render(MainKey(f), KeyMaps(cover), state) == FieldValue(f, state, cover)
    ensures Render(CompanionKey(f), KeyMaps(cover), state) == ExistsValue(FieldValue(f, state, cover))
  {
    RenderedMain(f, state, cover);
    RenderedCompanion(f, state, cover);
  }

  /** Entries 2i and 2i + 1 of the key map, for the field at position i. */
  lemma FieldEntries(f: Field, state: PublishState, cover: string)
    ensures 2 * Position(f) + 1 < |KeyMaps(cover)|
    ensures KeyMaps(cover)[2 * Position(f)].key == MainKey(f)
    ensures KeyMaps(cover)[2 * Position(f)].value.Invoke(state) == FieldValue(f, state, cover)
    ensures KeyMaps(cover)[2 * Position(f) + 1].key == CompanionKey(f)
    ensures KeyMaps(cover)[2 * Position(f) + 1].value.Invoke(state) == ExistsValue(FieldValue(f, state, cover))
  {
    KeyMapsAt(cover, Position(f));
  }

  lemma RenderedMain(f: Field, state: PublishState, cover: string)
    requires HoldsNoKey(FieldValue(f, state, cover))
    ensures Render(MainKey(f), KeyMaps(cover), state) == FieldValue(f, state, cover)
  {
    FieldEntries(f, state, cover);
    RenderedEntry(cover, 2 * Position(f), state);
  }

  lemma RenderedCompanion(f: Field, state: PublishState, cover: string)
    ensures Render(CompanionKey(f), KeyMaps(cover), state) == ExistsValue(FieldValue(f, state, cover))
  {
    FieldEntries(f, state, cover);
    HideStyleHoldsNoKey();
    RenderedEntry(cover, 2 * Position(f) + 1, state);
  }

  // ----- When the companion hides an element -----

  /** A value the state lacks: null, blank or the placeholder. */
  predicate Unset(o: Option<string>) {
    o.None? || BlankOrPlaceholder(o.value)
  }

  /**
   * Reference definition, in terms of the state alone, of when the
   * template's element for f is hidden: the value is missing once the
   * fallbacks are taken into account.
   */
  ghost predicate Hidden(f: Field, state: PublishState) {
    match f
    case ReleaseTitle => BlankOrPlaceholder(state.info.displayTitle)
    case ChapterTitle => state.info.chapterName.Some? && BlankOrPlaceholder(state.info.chapterName.value)
    case ChapterNumber => BlankOrPlaceholder(state.info.chapterNumber)
    case VolumeNumber => state.info.chapterVolume.Some? && BlankOrPlaceholder(state.info.chapterVolume.value)
    case Message =>
      state.info.message.None?
      || (IsBlank(state.info.message.value) && '\n' !in state.info.message.value)
      || state.info.message.value == Placeholder
    case BoxPdfReader => Unset(state.links.boxPdfReader)
    case CoverImage => false
    case _ => Unset(LinkOf(f, state.links))
  }

  /** Turning line feeds into <br> leaves a blank message blank only when it had no line feed. */
  lemma {:induction false} LineBreaksBlank(m: string)
    ensures IsBlank(Replace(m, "\n", LineBreak)) <==> IsBlank(m) && '\n' !in m
  {
    if m != [] {
      ReplaceCharCons(m, "\n", LineBreak);
      LineBreaksBlank(m[1..]);
      var head := if m[0] == '\n' then LineBreak else [m[0]];
      BlankAppend(head, Replace(m[1..], "\n", LineBreak));
      BlankAppend([m[0]], m[1..]);
      assert m == [m[0]] + m[1..];
      assert !IsWhiteSpace(LineBreak[0]);
    }
  }

  /** Turning line feeds into <br> yields the placeholder only from the placeholder. */
  lemma LineBreaksPlaceholder(m: string)
    ensures Replace(m, "\n", LineBreak) == Placeholder <==> m == Placeholder
  {
    OccursChar('\n', Placeholder);
    ReplaceUnchanged(Placeholder, "\n", LineBreak);
    if m != [] {
      ReplaceCharCons(m, "\n", LineBreak);
      ReplaceLength(m[1..], "\n", LineBreak);
      if m[0] != '\n' && m[1..] != [] {
        assert |Replace(m, "\n", LineBreak)| >= 2;
      }
      if m[0] == '\n' {
        assert |Replace(m, "\n", LineBreak)| >= 4;
      }
      if m[0] != '\n' && m[1..] == [] {
        assert m == [m[0]];
      }
    }
  }

  /** A text that starts with a non-blank character is neither blank nor the placeholder when longer than one. */
  lemma ShownText(s: string)
    requires |s| > 1 && !IsWhiteSpace(s[0])
    ensures !BlankOrPlaceholder(s)
  {
  }

  /**
   * The companion of f hides its element exactly when the state lacks the
   * value: a fallback of "Capítulo n", "?" or the cover prefix is always
   * shown, a "#" link fallback or an empty fallback is always hidden.
   */
  lemma CompanionHidesExactlyMissing(f: Field, state: PublishState, cover: string)
    ensures ExistsValue(FieldValue(f, state, cover)) == (if Hidden(f, state) then HideStyle else "")
  {
    var v := FieldValue(f, state, cover);
    match f
    case ChapterTitle =>
      if state.info.chapterName.None? {
        ShownText(v);
      }
    case VolumeNumber =>
      if state.info.chapterVolume.None? {
        assert !IsWhiteSpace(v[0]);
      }
    case Message =>
      if state.info.message.Some? {
        LineBreaksBlank(state.info.message.value);
        LineBreaksPlaceholder(state.info.message.value);
      }
    case CoverImage =>
      ShownText(v);
    case _ =>
  }

  // ----- Renderings the announcement relies on -----

  /**
   * A download link the run did not produce renders as "#" and its companion
   * hides the element; a produced link that holds no key renders as itself,
   * and its companion hides the element only when the link is blank or "#".
   */
  lemma RenderedLink(f: Field, state: PublishState, cover: string)
    requires f.IsDownloadLink()
    ensures LinkOf(f, state.links).None? ==>
      && Render(MainKey(f), KeyMaps(cover), state) == Placeholder
      && Render(CompanionKey(f), KeyMaps(cover), state) == HideStyle
    ensures LinkOf(f, state.links).Some? && HoldsNoKey(LinkOf(f, state.links).value) ==>
      && Render(MainKey(f), KeyMaps(cover), state) == LinkOf(f, state.links).value
      && Render(CompanionKey(f), KeyMaps(cover), state)
         == if BlankOrPlaceholder(LinkOf(f, state.links).value) then HideStyle else ""
  {
    var link := LinkOf(f, state.links);
    if link.None? {
      RenderedMissingLink(f, state, cover);
    } else if HoldsNoKey(link.value) {
      RenderedPresentLink(f, state, cover);
    }
  }

  lemma RenderedMissingLink(f: Field, state: PublishState, cover: string)
    requires f.IsDownloadLink() && LinkOf(f, state.links).None?
    ensures Render(MainKey(f), KeyMaps(cover), state) == Placeholder
    ensures Render(CompanionKey(f), KeyMaps(cover), state) == HideStyle
  {
    assert FieldValue(f, state, cover) == Placeholder;
    RenderedMain(f, state, cover);
    RenderedCompanion(f, state, cover);
  }

  lemma RenderedPresentLink(f: Field, state: PublishState, cover: string)
    requires f.IsDownloadLink() && LinkOf(f, state.links).Some? && HoldsNoKey(LinkOf(f, state.links).value)
    ensures Render(MainKey(f), KeyMaps(cover), state) == LinkOf(f, state.links).value
    ensures Render(CompanionKey(f), KeyMaps(cover), state)
      == if BlankOrPlaceholder(LinkOf(f, state.links).value) then HideStyle else ""
  {
    assert FieldValue(f, state, cover) == LinkOf(f, state.links).value;
    RenderedMain(f, state, cover);
    RenderedCompanion(f, state, cover);
  }

  /** A Mega link, whose key follows a single '#', renders as itself and is shown. */
  lemma RenderedMegaLinkExample(state: PublishState, cover: string)
    requires state.links.megaZip == Some("https://mega.nz/file/abc#def")
    ensures Render(MainKey(MegaZipLink), KeyMaps(cover), state) == "https://mega.nz/file/abc#def"
    ensures Render(CompanionKey(MegaZipLink), KeyMaps(cover), state) == ""
  {
    var link := "https://mega.nz/file/abc#def";
    assert NoDoubleHash(link);
    assert !IsWhiteSpace(link[0]) && link != Placeholder;
    RenderedPresentLink(MegaZipLink, state, cover);
  }

  /** A message without "##" renders with each line feed turned into <br>. */
  lemma RenderedMessage(state: PublishState, cover: string, m: string)
    requires state.info.message == Some(m) && NoDoubleHash(m)
    ensures Render(MainKey(Message), KeyMaps(cover), state) == Replace(m, "\n", LineBreak)
  {
    LineBreaksNoDoubleHash(m);
    RenderedMain(Message, state, cover);
  }

  /** Turning line feeds into <br> never puts two '#' side by side. */
  lemma {:induction false} LineBreaksNoDoubleHash(m: string)
    requires NoDoubleHash(m)
    ensures NoDoubleHash(Replace(m, "\n", LineBreak))
    ensures Replace(m, "\n", LineBreak) != [] && Replace(m, "\n", LineBreak)[0] == '#' ==> m != [] && m[0] == '#'
  {
    if m != [] {
      ReplaceCharCons(m, "\n", LineBreak);
      assert forall i :: 0 <= i < |m| - 1 ==> m[1..][i] == m[i + 1];
      LineBreaksNoDoubleHash(m[1..]);
      var head := if m[0] == '\n' then LineBreak else [m[0]];
      var rest := Replace(m[1..], "\n", LineBreak);
      assert NoDoubleHash(head);
      if rest != [] && rest[0] == '#' {
        assert m[1] == '#';
        assert head[|head| - 1] != '#';
      }
      NoDoubleHashAppend(head, rest);
    }
  }

  /** A two-line message renders as its lines joined by <br>. */
  lemma RenderedTwoLines(state: PublishState, cover: string, a: string, b: string)
    requires state.info.message == Some(a + "\n" + b)
    requires '\n' !in a && '\n' !in b && NoDoubleHash(a + "\n" + b)
    ensures Render(MainKey(Message), KeyMaps(cover), state) == a + LineBreak + b
  {
    ReplaceOneChar(a, b, '\n', LineBreak);
    RenderedMessage(state, cover, a + "\n" + b);
  }

  lemma RenderedMessageExample(state: PublishState, cover: string)
    requires state.info.message == Some("line1\nline2")
    ensures Render(MainKey(Message), KeyMaps(cover), state) == "line1<br>line2"
  {
    var a, b := "line1", "line2";
    assert "line1\nline2" == a + "\n" + b;
    assert "line1<br>line2" == a + LineBreak + b;
    RenderedTwoLines(state, cover, a, b);
  }

  /** A message with a hashtag and no line feed is shown as it is. */
  lemma RenderedHashtagMessage(state: PublishState, cover: string)
    requires state.info.message == Some("novo #manga")
    ensures Render(MainKey(Message), KeyMaps(cover), state) == "novo #manga"
  {
    var m := "novo #manga";
    assert NoDoubleHash(m) && '\n' !in m;
    RenderedMain(Message, state, cover);
  }

  /**
   * Values are scanned again by the keys that come after them: a message that
   * holds the cover key renders as the cover image.
   */
  lemma RenderRescansValues(state: PublishState, cover: string)
    requires state.info.message == Some(MainKey(CoverImage)) && NoDoubleHash(cover)
    ensures Render(MainKey(Message), KeyMaps(cover), state) == CoverPrefix + cover
  {
    assert '\n' !in MainKey(CoverImage);
    assert NoDoubleHash(CoverPrefix);
    NoDoubleHashAppend(CoverPrefix, cover);
    RenderedFieldChain(Message, CoverImage, state, cover);
  }

  // ----- Keys inside the template's text -----

  /** A main key inside safe text renders to its field's value, with the text around it kept. */
  lemma RenderedMainInContext(f: Field, state: PublishState, cover: string, a: string, b: string)
    requires SafeBefore(a) && SafeAfter(b) && HoldsNoKey(FieldValue(f, state, cover))
    ensures Render(a + MainKey(f) + b, KeyMaps(cover), state) == a + FieldValue(f, state, cover) + b
  {
    KeyMapsWellFormed(cover);
    RenderInContext(a, MainKey(f), b, KeyMaps(cover), state);
    RenderedMain(f, state, cover);
  }

  /** A companion key inside safe text renders to its companion value, with the text around it kept. */
  lemma RenderedCompanionInContext(f: Field, state: PublishState, cover: string, a: string, b: string)
    requires SafeBefore(a) && SafeAfter(b)
    ensures Render(a + CompanionKey(f) + b, KeyMaps(cover), state)
      == a + ExistsValue(FieldValue(f, state, cover)) + b
  {
    KeyMapsWellFormed(cover);
    RenderInContext(a, CompanionKey(f), b, KeyMaps(cover), state);
    RenderedCompanion(f, state, cover);
  }

  /** A produced link inside safe text is inserted as it is. */
  lemma RenderedPresentLinkInContext(f: Field, state: PublishState, cover: string, a: string, b: string)
    requires f.IsDownloadLink() && LinkOf(f, state.links).Some? && HoldsNoKey(LinkOf(f, state.links).value)
    requires SafeBefore(a) && SafeAfter(b)
    ensures Render(a + MainKey(f) + b, KeyMaps(cover), state) == a + LinkOf(f, state.links).value + b
  {
    assert FieldValue(f, state, cover) == LinkOf(f, state.links).value;
    RenderedMainInContext(f, state, cover, a, b);
  }

  /** The text of an HTML anchor around its href value. */
  const HrefOpen := "<a href=\""
  const HrefClose := "\">"

  lemma HrefSafe()
    ensures SafeBefore(HrefOpen) && SafeAfter(HrefClose)
  {
    NoHashNoDoubleHash(HrefOpen);
    NoHashNoDoubleHash(HrefClose);
  }

  /** The Mega link fills the href attribute it stands in. */
  lemma RenderedHrefExample(state: PublishState, cover: string)
    requires state.links.megaZip == Some("https://mega.nz/file/abc#def")
    ensures Render(HrefOpen + MainKey(MegaZipLink) + HrefClose, KeyMaps(cover), state)
      == "<a href=\"" + "https://mega.nz/file/abc#def" + "\">"
  {
    MegaLinkHoldsNoKey();
    HrefSafe();
    RenderedPresentLinkInContext(MegaZipLink, state, cover, HrefOpen, HrefClose);
  }

  /** The example Mega link has a single '#', so it holds no key. */
  lemma MegaLinkHoldsNoKey()
    ensures NoDoubleHash("https://mega.nz/file/abc#def")
  {
    var link := "https://mega.nz/file/abc#def";
    assert forall i :: 0 <= i < |link| && i != 24 ==> link[i] != '#';
  }

  /** The text of an HTML element's opening tag around a companion key. */
  const DivOpen := "<div "
  const DivClose := ">"

  lemma DivSafe()
    ensures SafeBefore(DivOpen) && SafeAfter(DivClose)
  {
    NoHashNoDoubleHash(DivOpen);
    NoHashNoDoubleHash(DivClose);
  }

  /** The element of a link the run did not produce is hidden through its companion key. */
  lemma RenderedHiddenDivExample(state: PublishState, cover: string)
    requires state.links.megaPdf.None?
    ensures Render(DivOpen + CompanionKey(MegaPdfLink) + DivClose, KeyMaps(cover), state)
      == "<div " + "style=\"display: none !important;\"" + ">"
  {
    DivSafe();
    RenderedCompanionInContext(MegaPdfLink, state, cover, DivOpen, DivClose);
  }

  /** The text of an HTML paragraph around its content. */
  const ParagraphOpen := "<p>"
  const ParagraphClose := "</p>"

  lemma ParagraphSafe()
    ensures SafeBefore(ParagraphOpen) && SafeAfter(ParagraphClose)
  {
    NoHashNoDoubleHash(ParagraphOpen);
    NoHashNoDoubleHash(ParagraphClose);
  }

  /** A two-line message inside a paragraph renders with <br> and the paragraph kept. */
  lemma RenderedMessageInContext(state: PublishState, cover: string)
    requires state.info.message == Some("line1\nline2")
    ensures Render(ParagraphOpen + MainKey(Message) + ParagraphClose, KeyMaps(cover), state)
      == "<p>" + "line1<br>line2" + "</p>"
  {
    KeyMapsWellFormed(cover);
    ParagraphSafe();
    RenderInContext(ParagraphOpen, MainKey(Message), ParagraphClose, KeyMaps(cover), state);
    RenderedMessageExample(state, cover);
  }

  /** A field whose value is the key of a later field renders as that later field's value. */
  lemma RenderedFieldChain(f: Field, g: Field, state: PublishState, cover: string)
    requires Position(f) < Position(g) && FieldValue(f, state, cover) == MainKey(g)
    requires HoldsNoKey(FieldValue(g, state, cover))
    ensures Render(MainKey(f), KeyMaps(cover), state) == FieldValue(g, state, cover)
  {
    var ms := KeyMaps(cover);
    var j, j2 := 2 * Position(f), 2 * Position(g);
    FieldEntries(f, state, cover);
    FieldEntries(g, state, cover);
    KeyMapsWellFormed(cover);
    var v := FieldValue(g, state, cover);
    forall k | j2 < k < |ms| ensures !Occurs(ms[k].key, ms[j2].value.Invoke(state)) {
      TokenNotIn(ms[k].key, v);
    }
    RenderChained(ms, j, j2, state);
  }

  /** When the value of key j is key j2, a later key, rendering key j yields the value of key j2. */
  lemma RenderChained(ms: seq<KeyMap>, j: nat, j2: nat, state: PublishState)
    requires TokenKeys(ms) && DistinctKeys(ms) && j < j2 < |ms|
    requires ms[j].value.Invoke(state) == ms[j2].key
    requires forall k :: j2 < k < |ms| ==> !Occurs(ms[k].key, ms[j2].value.Invoke(state))
    ensures Render(ms[j].key, ms, state) == ms[j2].value.Invoke(state)
  {
    RenderThroughKey(ms, j, state);
    RenderLaterKey(ms, ms[j + 1..], j, j2, state);
  }

  /** In the entries after j, key j2 renders to its value. */
  lemma RenderLaterKey(ms: seq<KeyMap>, rest: seq<KeyMap>, j: nat, j2: nat, state: PublishState)
    requires TokenKeys(ms) && DistinctKeys(ms) && j < j2 < |ms| && rest == ms[j + 1..]
    requires forall k :: j2 < k < |ms| ==> !Occurs(ms[k].key, ms[j2].value.Invoke(state))
    ensures NonEmptyKeys(rest)
    ensures Render(ms[j2].key, rest, state) == ms[j2].value.Invoke(state)
  {
    SuffixKeys(ms, j + 1);
    ChainedRest(ms, rest, j, j2, state);
    RenderKeyAlone(rest, j2 - j - 1, state);
  }

  lemma ChainedRest(ms: seq<KeyMap>, rest: seq<KeyMap>, j: nat, j2: nat, state: PublishState)
    requires j < j2 < |ms| && rest == ms[j + 1..]
    requires forall k :: j2 < k < |ms| ==> !Occurs(ms[k].key, ms[j2].value.Invoke(state))
    ensures rest[j2 - j - 1] == ms[j2]
    ensures forall k :: j2 - j - 1 < k < |rest| ==> !Occurs(rest[k].key, rest[j2 - j - 1].value.Invoke(state))
  {
    var k2 := j2 - j - 1;
    forall k | k2 < k < |rest| ensures !Occurs(rest[k].key, rest[k2].value.Invoke(state)) {
      assert rest[k] == ms[k + j + 1];
    }
  }

  lemma SuffixKeys(ms: seq<KeyMap>, n: nat)
    requires TokenKeys(ms) && DistinctKeys(ms) && n <= |ms|
    ensures TokenKeys(ms[n..]) && DistinctKeys(ms[n..])
  {
    assert forall p :: 0 <= p < |ms| - n ==> ms[n..][p] == ms[n + p];
  }
}
