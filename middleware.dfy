/**
 The LinkChop edge router: for every request pathname it either lets the
 request through to the single-page UI and its static assets, or answers with
 a 302 redirect that hands the short code to the backend resolver function.
 */
module Middleware {
  import opened PathSegments

  /** The response primitives of the edge platform, as values. */
  datatype Response = Next | Redirect(target: string, status: int)

  /** The backend resolver function; the short code is appended as one more path segment. */
  const ResolverBase: string := "https://cjkntiqdvzevlnyxovau.supabase.co/functions/v1/redirector"

  /** 302 Found, section 15.4.3 of RFC 9110. */
  const Found: int := 302

  /** The homepage and anything that looks like a file name (a `.` anywhere) are never short codes. */
  predicate IsExcluded(path: string) {
    path == "/" || '.' in path
  }

  /** `path.split("/").filter(Boolean).pop()`: the candidate short code, or `undefined`. */
  function ExtractCode(path: string): (code: Option<string>)
    ensures code == if LastSegment(path) == [] then None else Some(LastSegment(path))
    ensures code.Some? ==> code.value != [] && Slash !in code.value
    ensures code.None? <==> forall i :: 0 <= i < |path| ==> path[i] == Slash
  {
    PopNonEmptySplitIsLastSegment(path);
    Pop(NonEmpty(Split(path)))
  }

  /**
   The redirect target for a short code. It lies under the resolver base, and
   the resolver reads a well-formed code back as the target's last segment.
   */
  function TargetFor(code: string): (target: string)
    ensures |target| > |ResolverBase| && target[..|ResolverBase|] == ResolverBase
    ensures code != [] && Slash !in code ==> LastSegment(target) == code
  {
    var target := ResolverBase + [Slash] + code;
    assert code != [] && Slash !in code ==> LastSegment(target) == code by {
      if code != [] && Slash !in code {
        LastSegmentAfterSlash(ResolverBase, code);
      }
    }
    target
  }

  /**
   The router, `middleware(req)` on the request's pathname. It is total: every
   path gets exactly one of the two responses. It redirects exactly when the
   path is not excluded and has a non-slash character, always with status 302,
   to the resolver followed by the last non-empty segment of the path.
   */
  function Route(path: string): (r: Response)
    ensures path == "/" ==> r == Next
    ensures '.' in path ==> r == Next
    ensures r.Redirect? <==> !IsExcluded(path) && exists i :: 0 <= i < |path| && path[i] != Slash
    ensures r.Redirect? ==> r.status == Found && r.target == TargetFor(LastSegment(path))
  {
    if IsExcluded(path) then Next
    else
      PopNonEmptySplitIsLastSegment(path);
      match ExtractCode(path)
      case Some(code) => if code != [] then Redirect(TargetFor(code), Found) else Next
      case None => Next
  }

  /** Whatever the resolver base, the code it receives is the last segment of the target URL, and it is never a file-like name. */
  lemma RedirectCarriesCode(path: string)
    requires Route(path).Redirect?
    ensures LastSegment(Route(path).target) == LastSegment(path)
    ensures LastSegment(path) != [] && Slash !in LastSegment(path) && '.' !in LastSegment(path)
  {
    LastSegmentWithin(path);
  }

  /** The last segment of a path is made of characters of that path. */
  lemma {:induction false} LastSegmentWithin(s: string)
    ensures forall ch :: ch in LastSegment(s) ==> ch in s
  {
    if s != [] && s[|s| - 1] == Slash {
      LastSegmentWithin(s[..|s| - 1]);
    }
  }

  /** A path made only of slashes (`"/"`, `"//"`, `"///"`, ...) is always passed through. */
  lemma OnlySlashesPassThrough(path: string)
    requires forall i :: 0 <= i < |path| ==> path[i] == Slash
    ensures Route(path) == Next
  {
  }

  /** Extra slashes before or after the path never change the routing decision. */
  lemma SlashesDoNotMatter(path: string)
    ensures Route(path + [Slash]) == Route(path)
    ensures Route([Slash] + path) == Route(path)
  {
    LastSegmentTrailingSlash(path);
    LastSegmentLeadingSlash(path);
    assert '.' in path + [Slash] <==> '.' in path;
    assert '.' in [Slash] + path <==> '.' in path;
    if path == [] {
      assert Route(path) == Next;
    }
  }

  /** A path of one well-formed segment redirects to the resolver for exactly that segment. */
  lemma SingleSegmentRedirects(code: string)
    requires code != [] && Slash !in code && '.' !in code
    ensures Route([Slash] + code) == Redirect(TargetFor(code), Found)
  {
    var path := [Slash] + code;
    assert path[1] != Slash;
    assert '.' !in path;
    LastSegmentAfterSlash([], code);
    assert path == [] + [Slash] + code;
  }

  /** The three spellings `/abc`, `/abc/` and `//abc//` all redirect to the resolver for `abc`. */
  lemma SameCodeExample()
    ensures Route("/abc") == Route("/abc/") == Route("//abc//") == Redirect(TargetFor("abc"), Found)
  {
    assert "/abc" == [Slash] + "abc";
    assert "/abc/" == "/abc" + [Slash];
    assert "//abc/" == [Slash] + "/abc/";
    assert "//abc//" == "//abc/" + [Slash];
    SingleSegmentRedirects("abc");
    SlashesDoNotMatter("/abc");
    SlashesDoNotMatter("/abc/");
    SlashesDoNotMatter("//abc/");
  }
}
