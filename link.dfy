/**
 * Link joining (lib/link.ts). A missing link or `.` contributes nothing, a
 * link already rooted at `/` is kept, any other link gets a `/` in front;
 * joining two links concatenates their normal forms.
 */
module Link {
  import opened Strings

  /** `normalizeLink`; `None` stands for an `undefined` argument. */
  function NormalizeLink(link: Option<string>): (r: string)
    ensures r == "" || StartsWith(r, "/")
    ensures r == "" <==> (link == None || link == Some("."))
    ensures link.Some? && StartsWith(link.value, "/") ==> r == link.value
    ensures link.Some? && link.value != "." && !StartsWith(link.value, "/") ==> r == "/" + link.value
  {
    if link == None || link == Some(".") then
      assert !StartsWith(".", "/") by { assert "."[0] != '/'; }
      ""
    else if StartsWith(link.value, "/") then link.value
    else "/" + link.value
  }

  /** `connectLinks`. */
  function ConnectLinks(a: Option<string>, b: Option<string>): string {
    NormalizeLink(a) + NormalizeLink(b)
  }

  /** Normalizing twice is normalizing once, for every defined link other than `.`. */
  lemma NormalizeIdempotent(link: string)
    requires link != "."
    ensures NormalizeLink(Some(NormalizeLink(Some(link)))) == NormalizeLink(Some(link))
  {
    var once := NormalizeLink(Some(link));
    assert StartsWith(once, "/");
    assert once != "." by { assert once[0] == '/'; }
  }

  /** `.` is the one defined link whose normal form is not a fixed point. */
  lemma NormalizeDotNotIdempotent()
    ensures NormalizeLink(Some(NormalizeLink(Some(".")))) == "/"
    ensures NormalizeLink(Some(".")) == ""
  {
  }

  /** A joined link is empty or rooted at `/`, and is empty only when both parts are. */
  lemma ConnectLinksShape(a: Option<string>, b: Option<string>)
    ensures ConnectLinks(a, b) == "" || StartsWith(ConnectLinks(a, b), "/")
    ensures ConnectLinks(a, b) == "" <==> NormalizeLink(a) == "" && NormalizeLink(b) == ""
  {
    var na, nb := NormalizeLink(a), NormalizeLink(b);
    if na == "" {
      assert na + nb == nb;
    } else {
      assert (na + nb)[..1] == na[..1];
    }
  }

  /** The cases of lib/link.test.ts:5-10 that the code satisfies. */
  lemma NormalizeLinkCases()
    ensures NormalizeLink(Some("simple")) == "/simple"
    ensures NormalizeLink(Some("/simple")) == "/simple"
  {
    assert !StartsWith("simple", "/") by { assert "simple"[0] != '/'; }
    assert StartsWith("/simple", "/");
  }

  /** The cases of lib/link.test.ts:20-30, 35 and 36, which the code satisfies. */
  lemma ConnectLinksCases()
    ensures ConnectLinks(Some("a"), Some("b")) == "/a/b"
    ensures ConnectLinks(Some("/a"), Some("b")) == "/a/b"
    ensures ConnectLinks(Some("a"), Some("/b")) == "/a/b"
    ensures ConnectLinks(Some("/a"), Some("/b")) == "/a/b"
    ensures ConnectLinks(Some("a"), Some(".")) == "/a"
    ensures ConnectLinks(Some("."), Some("b")) == "/b"
    ensures ConnectLinks(Some("a"), None) == "/a"
    ensures ConnectLinks(None, Some("b")) == "/b"
  {
    assert !StartsWith("a", "/") by { assert "a"[0] != '/'; }
    assert !StartsWith("b", "/") by { assert "b"[0] != '/'; }
    assert StartsWith("/a", "/") && StartsWith("/b", "/");
  }

  /**
   * What the code gives where lib/link.test.ts:12, 15, 31 and 34 expect
   * `/`: the empty string, for `.` and for a missing link.
   */
  lemma LinkDotCases()
    ensures NormalizeLink(Some(".")) == "" && NormalizeLink(None) == ""
    ensures ConnectLinks(Some("."), Some(".")) == "" && ConnectLinks(None, None) == ""
  {
  }

  /**
   * No `normalizeLink` whatsoever can meet both the expectation that `.`
   * normalizes to `/` (lib/link.test.ts:12) and that joining `a` with `.`
   * gives `/a` (lib/link.test.ts:29), since joining is concatenation and `a`
   * must normalize to `/a` (lib/link.test.ts:6 for `simple`).
   */
  lemma DotExpectationsConflict(normalize: Option<string> -> string)
    requires normalize(Some(".")) == "/"
    requires normalize(Some("a")) == "/a"
    ensures normalize(Some("a")) + normalize(Some(".")) != "/a"
  {
    assert |normalize(Some("a")) + normalize(Some("."))| == 3;
  }
}
