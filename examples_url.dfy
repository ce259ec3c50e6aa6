/**
 * Worked instances of the link detector on concrete messages.
 */
module UrlExamples {
  import opened Wrappers
  import opened Text
  import opened UrlMatcher

  /** A link in running text, found after the words before it and cut at the space after it. */
  lemma FindUrlInSentence()
    ensures FindUrl("see https://vt.tiktok.com/ZS1/ ok") == Some("https://vt.tiktok.com/ZS1/")
  {
    var u := "https://vt.tiktok.com/ZS1/";
    ShortLinkShape();
    assert "see " + u + " ok" == "see https://vt.tiktok.com/ZS1/ ok";
    FindUrlAfter("see ", u, " ok");
  }

  /** A short `vt.` link has the pattern's shape, cut after the scheme and after the host. */
  lemma ShortLinkShape()
    ensures ShapeCuts("https://vt.tiktok.com/ZS1/", 8, 22)
  {
    ShortLinkParts();
    LowerOfLowercase("https://");
    ShortHostLower();
  }

  lemma ShortLinkParts()
    ensures "https://vt.tiktok.com/ZS1/"[..8] == "https://"
    ensures "https://vt.tiktok.com/ZS1/"[8..22] == "vt.tiktok.com/"
    ensures "https://vt.tiktok.com/ZS1/"[22..] == "ZS1/"
  {
    var u := "https://vt.tiktok.com/ZS1/";
    forall k | 0 <= k < 14 ensures u[8..22][k] == "vt.tiktok.com/"[k] {
      assert u[8..22][k] == u[8 + k];
    }
  }

  lemma ShortHostLower()
    ensures Lower("vt.tiktok.com/") == "vt." + Domain
  {
  }

  /** Scheme and host in capitals are matched, and the link keeps the case it was written in. */
  lemma FindUrlUpperCase()
    ensures FindUrl("HTTP://M.TikTok.com/@a/video/1") == Some("HTTP://M.TikTok.com/@a/video/1")
  {
    var u := "HTTP://M.TikTok.com/@a/video/1";
    UpperCaseLinkShape();
    assert [] + u + [] == u;
    FindUrlAfter([], u, []);
  }

  /** A link written in capitals has the pattern's shape. */
  lemma UpperCaseLinkShape()
    ensures ShapeCuts("HTTP://M.TikTok.com/@a/video/1", 7, 20)
  {
    UpperCaseLinkParts();
    UpperCaseLower();
  }

  lemma UpperCaseLinkParts()
    ensures "HTTP://M.TikTok.com/@a/video/1"[..7] == "HTTP://"
    ensures "HTTP://M.TikTok.com/@a/video/1"[7..20] == "M.TikTok.com/"
    ensures "HTTP://M.TikTok.com/@a/video/1"[20..] == "@a/video/1"
  {
    var u := "HTTP://M.TikTok.com/@a/video/1";
    forall k | 0 <= k < 13 ensures u[7..20][k] == "M.TikTok.com/"[k] {
      assert u[7..20][k] == u[7 + k];
    }
  }

  lemma UpperCaseLower()
    ensures Lower("HTTP://") == "http://"
    ensures Lower("M.TikTok.com/") == "m." + Domain
  {
  }
}
