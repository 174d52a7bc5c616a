/**
 * GoogleBloggerService.PostAsync: the configuration guards that run before a
 * post is sent to Blogger, and the URL slug the post is given.
 */
module BloggerPost {
  import opened Wrappers
  import opened DotNetText

  const UrlUndefined := "Blogger url is undefined."
  const IdUndefined := "Blogger id is undefined."
  const UrlNotValid := "Unable to identify Blogger url as valid link."

  /** The character class [0-9a-zA-Z-] of the service's UrlPattern. */
  predicate IsUrlChar(c: char) {
    '0' <= c <= '9' || 'a' <= c <= 'z' || 'A' <= c <= 'Z' || c == '-'
  }

  /** What a slug may contain once it has been lower-cased and filtered. */
  predicate IsSlugChar(c: char) {
    '0' <= c <= '9' || 'a' <= c <= 'z' || c == '-'
  }

  /** Length of the match of [^0-9a-zA-Z-]+ at the start of s (0 when there is none): a maximal run. */
  function UnmatchedRunLength(s: string): (n: nat)
    ensures n <= |s|
    ensures forall i :: 0 <= i < n ==> !IsUrlChar(s[i])
    ensures n < |s| ==> IsUrlChar(s[n])
  {
    if s == [] || IsUrlChar(s[0]) then 0 else 1 + UnmatchedRunLength(s[1..])
  }

  /**
   * UrlPattern().Replace(s, ""): the regular expression [^0-9a-zA-Z-]+ is
   * matched from left to right and every match, a maximal run of characters
   * outside the class, is replaced by nothing.
   */
  function RemoveUrlPatternMatches(s: string): (r: string)
    decreases |s|
  {
    if s == [] then []
    else if IsUrlChar(s[0]) then [s[0]] + RemoveUrlPatternMatches(s[1..])
    else RemoveUrlPatternMatches(s[UnmatchedRunLength(s)..])
  }

  /** Reference definition: keep the characters of the class, one at a time. */
  function KeepUrlChars(s: string): (r: string) {
    if s == [] then []
    else (if IsUrlChar(s[0]) then [s[0]] else []) + KeepUrlChars(s[1..])
  }

  lemma {:induction false} KeepUrlCharsSkipsRun(s: string, n: nat)
    requires n <= |s|
    requires forall i :: 0 <= i < n ==> !IsUrlChar(s[i])
    ensures KeepUrlChars(s) == KeepUrlChars(s[n..])
  {
    if n > 0 {
      KeepUrlCharsSkipsRun(s[1..], n - 1);
      assert s[1..][n - 1..] == s[n..];
    }
  }

  lemma {:induction false} KeepUrlCharsAppend(a: string, b: string)
    ensures KeepUrlChars(a + b) == KeepUrlChars(a) + KeepUrlChars(b)
  {
    if a == [] {
      assert a + b == b;
    } else {
      var head := if IsUrlChar(a[0]) then [a[0]] else [];
      assert (a + b)[0] == a[0];
      assert (a + b)[1..] == a[1..] + b;
      assert KeepUrlChars(a + b) == head + KeepUrlChars(a[1..] + b);
      KeepUrlCharsAppend(a[1..], b);
      assert KeepUrlChars(a) == head + KeepUrlChars(a[1..]);
    }
  }

  /** Removing whole runs of unmatched characters is the same as dropping them one by one. */
  lemma {:induction false} RemoveMatchesKeepsUrlChars(s: string)
    ensures RemoveUrlPatternMatches(s) == KeepUrlChars(s)
    decreases |s|
  {
    if s == [] {
    } else if IsUrlChar(s[0]) {
      RemoveMatchesKeepsUrlChars(s[1..]);
    } else {
      var n := UnmatchedRunLength(s);
      KeepUrlCharsSkipsRun(s, n);
      RemoveMatchesKeepsUrlChars(s[n..]);
    }
  }

  /** The filter keeps exactly the characters of the class, in order, and nothing else. */
  lemma {:induction false} KeepUrlCharsContents(s: string)
    ensures |KeepUrlChars(s)| <= |s|
    ensures forall c :: c in KeepUrlChars(s) <==> c in s && IsUrlChar(c)
    ensures (forall i :: 0 <= i < |s| ==> IsUrlChar(s[i])) ==> KeepUrlChars(s) == s
  {
    if s != [] {
      KeepUrlCharsContents(s[1..]);
      assert s == [s[0]] + s[1..];
    }
  }

  /**
   * UrlPattern().Replace(s.ToLower().Replace(" ", "-"), ""): spaces become
   * hyphens and everything but digits, lower-case ASCII letters and hyphens is
   * removed.
   */
  function Sanitize(s: string): (r: string)
    ensures forall i :: 0 <= i < |r| ==> IsSlugChar(r[i])
    ensures ' ' !in r
    ensures |r| <= |s|
  {
    ToLowerShape(s);
    var dashed := Replace(ToLower(s), " ", "-");
    RemoveMatchesKeepsUrlChars(dashed);
    KeepUrlCharsContents(dashed);
    ReplaceLength(ToLower(s), " ", "-");
    forall c | c in dashed ensures !('A' <= c <= 'Z') {
      ReplaceChars(ToLower(s), " ", "-", c);
    }
    var r := RemoveUrlPatternMatches(dashed);
    assert forall i :: 0 <= i < |r| ==> r[i] in r;
    r
  }

  /** A string that is already a slug is left as it is; so sanitising twice is sanitising once. */
  lemma SanitizeFixesSlugs(s: string)
    requires forall i :: 0 <= i < |s| ==> IsSlugChar(s[i])
    ensures Sanitize(s) == s
  {
    var lower := ToLower(s);
    ToLowerShape(s);
    assert lower == s;
    OccursChar(' ', s);
    ReplaceUnchanged(s, " ", "-");
    RemoveMatchesKeepsUrlChars(s);
    KeepUrlCharsContents(s);
  }

  /** The character the first two steps make of c: a space becomes a hyphen, anything else is lower-cased. */
  function DashedLowerChar(c: char): char {
    if c == ' ' then '-' else ToLowerChar(c)
  }

  /** Sanitising is the URL filter applied to the text with each character dashed and lower-cased. */
  lemma SanitizeSteps(s: string)
    ensures Sanitize(s) == KeepUrlChars(seq(|s|, i requires 0 <= i < |s| => DashedLowerChar(s[i])))
  {
    var lower := ToLower(s);
    ToLowerShape(s);
    ReplaceCharByChar(lower, ' ', '-');
    var dashed := Replace(lower, " ", "-");
    assert dashed == seq(|s|, i requires 0 <= i < |s| => DashedLowerChar(s[i]));
    RemoveMatchesKeepsUrlChars(dashed);
  }

  lemma SanitizeIdempotent(s: string)
    ensures Sanitize(Sanitize(s)) == Sanitize(s)
  {
    SanitizeFixesSlugs(Sanitize(s));
  }

  /** The slug of the post: the host of the blog URL, the title and the chapter number. */
  function Slug(host: string, title: string, chapterNumber: string): (r: string)
    ensures |host| < |r| <= |host| + |title| + 1 + |chapterNumber|
    ensures r[..|host|] == host
    ensures forall i :: |host| <= i < |r| ==> IsSlugChar(r[i])
    ensures |host| + |Sanitize(chapterNumber)| < |r| && r[|r| - |Sanitize(chapterNumber)| - 1..] == "-" + Sanitize(chapterNumber)
    ensures r[|host|..|r| - |Sanitize(chapterNumber)| - 1] == Sanitize(title)
  {
    host + Sanitize(title) + "-" + Sanitize(chapterNumber)
  }

  datatype Post = Post(content: string, title: string, labels: seq<string>, url: string)

  /** The insert request PostAsync hands to the Blogger client: the post and the blog it goes to. */
  datatype InsertRequest = InsertRequest(post: Post, blogId: string)

  /**
   * GoogleBloggerService.PostAsync up to the Blogger call. bloggerUrl and
   * bloggerId are the configured Blogger:Url and Blogger:Id; absoluteHost
   * stands for Uri.TryCreate(url, UriKind.Absolute) followed by Uri.Host
   * (None when the URL is not absolute). The first guard that fails decides
   * the one failure reason; otherwise the result is the request to execute.
   */
  function PostAsync(
    bloggerUrl: Option<string>, bloggerId: Option<string>, absoluteHost: string -> Option<string>,
    title: string, htmlContent: string, postLabel: string, chapterNumber: string)
    : (r: Result<InsertRequest, seq<string>>)
    ensures IsNullOrWhiteSpace(bloggerUrl) ==> r == Failure([UrlUndefined])
    ensures !IsNullOrWhiteSpace(bloggerUrl) && IsNullOrWhiteSpace(bloggerId) ==> r == Failure([IdUndefined])
    ensures !IsNullOrWhiteSpace(bloggerUrl) && !IsNullOrWhiteSpace(bloggerId) && absoluteHost(bloggerUrl.value).None?
      ==> r == Failure([UrlNotValid])
    ensures r.Failure? <==>
      IsNullOrWhiteSpace(bloggerUrl) || IsNullOrWhiteSpace(bloggerId) || absoluteHost(bloggerUrl.value).None?
    ensures r.Failure? ==> |r.error| == 1
    ensures r.Success? ==>
      && r.value.blogId == bloggerId.value
      && r.value.post == Post(htmlContent, title, [postLabel],
                              Slug(absoluteHost(bloggerUrl.value).value, title, chapterNumber))
  {
    if IsNullOrWhiteSpace(bloggerUrl) then Failure([UrlUndefined])
    else if IsNullOrWhiteSpace(bloggerId) then Failure([IdUndefined])
    else match absoluteHost(bloggerUrl.value)
      case None => Failure([UrlNotValid])
      case Some(host) =>
        Success(InsertRequest(Post(htmlContent, title, [postLabel], Slug(host, title, chapterNumber)), bloggerId.value))
  }

  /** Sanitising "My Title!" and "10" gives "my-title" and "10". */
  lemma SanitizeExample()
    ensures Sanitize("My Title!") == "my-title"
    ensures Sanitize("10") == "10"
  {
    SanitizeFixesSlugs("10");
    ExampleLowerDashed();
    ExampleFiltered();
  }

  lemma ExampleLowerDashed()
    ensures Replace(ToLower("My Title!"), " ", "-") == "my-title!"
  {
    var a, b := "My", "Title!";
    LowerDashedWords(a, b);
    assert "My Title!" == a + " " + b;
    ExampleLowerWords();
  }

  lemma ExampleLowerWords()
    ensures ToLower("My") + "-" + ToLower("Title!") == "my-title!"
  {
    assert ToLower("My") == "my";
    assert ToLower("Title!") == "title!";
  }

  /** Two words separated by one space are lower-cased and joined by a dash. */
  lemma LowerDashedWords(a: string, b: string)
    requires ' ' !in a && ' ' !in b
    ensures Replace(ToLower(a + " " + b), " ", "-") == ToLower(a) + "-" + ToLower(b)
  {
    ToLowerAppend(a + " ", b);
    ToLowerAppend(a, " ");
    ToLowerKeepsSpaces(a);
    ToLowerKeepsSpaces(b);
    assert ToLower(" ") == " ";
    ReplaceOneChar(ToLower(a), ToLower(b), ' ', "-");
  }

  lemma ExampleFiltered()
    ensures RemoveUrlPatternMatches("my-title!") == "my-title"
  {
    DropTrailingUnmatched("my-title", '!');
    assert "my-title!" == "my-title" + ['!'];
  }

  /** A trailing character outside the class is removed and the rest kept. */
  lemma DropTrailingUnmatched(a: string, c: char)
    requires forall i :: 0 <= i < |a| ==> IsUrlChar(a[i])
    requires !IsUrlChar(c)
    ensures RemoveUrlPatternMatches(a + [c]) == a
  {
    RemoveMatchesKeepsUrlChars(a + [c]);
    KeepUrlCharsAppend(a, [c]);
    KeepUrlCharsContents(a);
  }
}
