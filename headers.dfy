/** headers.go: three request profiles (API call, HTML page, image), each the common
    browser headers overlaid with a role-specific set. */
module Headers {
  import Utils

  type Headers = map<string, string>

  /** The Accept values of page and image requests. */
  const PageAccept: string := "text/html,application/xhtml+xml,application/xml;q=0.9,image/avif,image/webp,*/*;q=0.8"
  const ImageAccept: string := "image/avif,image/webp,image/apng,image/svg+xml,image/*,*/*;q=0.8"

  /** The role set for JSON API calls. */
  function ApiRole(): Headers {
    map[
      "Accept" := "*/*",
      "Sec-Fetch-Site" := "same-origin",
      "Sec-Fetch-Mode" := "cors",
      "Sec-Fetch-Dest" := "empty"
    ]
  }

  /** The role set for HTML page fetches. */
  function PageRole(): Headers {
    map[
      "Accept" := PageAccept,
      "Sec-Fetch-Site" := "same-origin",
      "Sec-Fetch-Mode" := "navigate",
      "Sec-Fetch-Dest" := "document",
      "Upgrade-Insecure-Requests" := "1"
    ]
  }

  /** The role set for image downloads. */
  function ImageRole(): Headers {
    map[
      "Accept" := ImageAccept,
      "Sec-Fetch-Site" := "cross-site",
      "Sec-Fetch-Mode" := "no-cors",
      "Sec-Fetch-Dest" := "image",
      "Sec-Fetch-Storage-Access" := "active",
      "Referer" := "https://comick.live/",
      "Accept-Encoding" := "gzip, deflate, br",
      "Priority" := "i"
    ]
  }

  /** Header sets applied left to right: a later set overrides an earlier one. */
  function Merged(sets: seq<Headers>): Headers {
    if |sets| == 0 then map[] else Merged(sets[..|sets| - 1]) + sets[|sets| - 1]
  }

  /** A key is in the merge exactly when it is in one of the sets. */
  lemma {:induction false} MergedKeys(sets: seq<Headers>)
    ensures forall k :: k in Merged(sets) <==> exists i :: 0 <= i < |sets| && k in sets[i]
  {
    if |sets| > 0 {
      var init := sets[..|sets| - 1];
      MergedKeys(init);
      forall k ensures k in Merged(sets) <==> exists i :: 0 <= i < |sets| && k in sets[i] {
        if k in Merged(sets) && k !in sets[|sets| - 1] {
          assert k in Merged(init);
          var i :| 0 <= i < |init| && k in init[i];
          assert k in sets[i];
        }
        if exists i :: 0 <= i < |sets| && k in sets[i] {
          var i :| 0 <= i < |sets| && k in sets[i];
          if i < |sets| - 1 {
            assert k in init[i];
          }
        }
      }
    }
  }

  /** The value of a key comes from the last set that has it. */
  lemma {:induction false} LastSetWins(sets: seq<Headers>, i: nat, k: string)
    requires i < |sets| && k in sets[i]
    requires forall j :: i < j < |sets| ==> k !in sets[j]
    ensures k in Merged(sets) && Merged(sets)[k] == sets[i][k]
  {
    if i < |sets| - 1 {
      var init := sets[..|sets| - 1];
      assert init[i] == sets[i];
      forall j | i < j < |init| ensures k !in init[j] {
        assert init[j] == sets[j];
      }
      LastSetWins(init, i, k);
    }
  }

  /** The API profile: the common headers overlaid with the API role set. */
  function ApiProfile(): Headers {
    Utils.CommonHeaders() + ApiRole()
  }

  /** The page profile: the common headers overlaid with the page role set. */
  function PageProfile(): Headers {
    Utils.CommonHeaders() + PageRole()
  }

  /** The image profile: the common headers overlaid with the image role set. */
  function ImageProfile(): Headers {
    Utils.CommonHeaders() + ImageRole()
  }

  /** Merging two sets is Dafny's right-biased map union. */
  lemma MergeTwo(a: Headers, b: Headers)
    ensures Merged([a, b]) == a + b
  {
    assert [a, b][..1] == [a];
    assert [a][..0] == [];
    assert Merged([a]) == map[] + a;
    assert map[] + a == a;
  }

  /** Two disjoint sets have as many elements together as apart. */
  lemma {:induction false} DisjointCard<T>(a: set<T>, b: set<T>)
    requires a !! b
    ensures |a + b| == |a| + |b|
  {
    if a != {} {
      var x :| x in a;
      DisjointCard(a - {x}, b);
      assert a + b == (a - {x} + b) + {x};
    }
  }

  /** Overlaying a header set whose names are all new keeps every earlier header and
      adds every new one: the result is as large as both together. */
  lemma DisjointOverlay(base: Headers, role: Headers)
    requires base.Keys !! role.Keys
    ensures |base + role| == |base| + |role|
    ensures forall k :: k in base ==> k in base + role && (base + role)[k] == base[k]
    ensures forall k :: k in role ==> k in base + role && (base + role)[k] == role[k]
  {
    DisjointCard(base.Keys, role.Keys);
    assert (base + role).Keys == base.Keys + role.Keys;
  }

  /** The five common header names. */
  lemma CommonNames()
    ensures Utils.CommonHeaders().Keys
         == {"User-Agent", "Accept-Language", "Sec-Ch-Ua", "Sec-Ch-Ua-Mobile", "Sec-Ch-Ua-Platform"}
    ensures |Utils.CommonHeaders()| == 5
  {
  }

  /** The four API header names. */
  lemma ApiNames()
    ensures ApiRole().Keys
         == {"Accept", "Sec-Fetch-Site", "Sec-Fetch-Mode", "Sec-Fetch-Dest"}
    ensures |ApiRole()| == 4
  {
  }

  /** The five page header names. */
  lemma PageNames()
    ensures PageRole().Keys
         == {"Accept", "Sec-Fetch-Site", "Sec-Fetch-Mode", "Sec-Fetch-Dest", "Upgrade-Insecure-Requests"}
    ensures |PageRole()| == 5
  {
  }

  /** The eight image header names. */
  lemma ImageNames()
    ensures ImageRole().Keys
         == {"Accept", "Sec-Fetch-Site", "Sec-Fetch-Mode", "Sec-Fetch-Dest", "Sec-Fetch-Storage-Access",
            "Referer", "Accept-Encoding", "Priority"}
    ensures |ImageRole()| == 8
  {
  }

  /** No api header name is a common header name. */
  lemma ApiDisjoint()
    ensures Utils.CommonHeaders().Keys !! ApiRole().Keys
  {
    ApiNames();
    SharedNamesNotCommon();
  }

  /** The api profile: the five common headers and the four API headers, 9 in all. */
  lemma ApiProfileSize()
    ensures |ApiProfile()| == 9
  {
    ApiDisjoint();
    ApiNames();
    CommonNames();
    DisjointOverlay(Utils.CommonHeaders(), ApiRole());
  }

  /** The api profile keeps every common header and every api header with its value. */
  lemma ApiProfileShape()
    ensures Utils.CommonHeaders().Keys !! ApiRole().Keys
    ensures forall k :: k in Utils.CommonHeaders() ==> k in ApiProfile() && ApiProfile()[k] == Utils.CommonHeaders()[k]
    ensures forall k :: k in ApiRole() ==> k in ApiProfile() && ApiProfile()[k] == ApiRole()[k]
  {
    ApiDisjoint();
    DisjointOverlay(Utils.CommonHeaders(), ApiRole());
  }


  /** No page header name is a common header name. */
  lemma PageDisjoint()
    ensures Utils.CommonHeaders().Keys !! PageRole().Keys
  {
    PageNames();
    SharedNamesNotCommon();
    PageOnlyNameNotCommon();
  }

  /** The page profile: the five common headers and the five page headers, 10 in all. */
  lemma PageProfileSize()
    ensures |PageProfile()| == 10
  {
    PageDisjoint();
    PageNames();
    CommonNames();
    DisjointOverlay(Utils.CommonHeaders(), PageRole());
  }

  /** The page profile keeps every common header and every page header with its value. */
  lemma PageProfileShape()
    ensures Utils.CommonHeaders().Keys !! PageRole().Keys
    ensures forall k :: k in Utils.CommonHeaders() ==> k in PageProfile() && PageProfile()[k] == Utils.CommonHeaders()[k]
    ensures forall k :: k in PageRole() ==> k in PageProfile() && PageProfile()[k] == PageRole()[k]
  {
    PageDisjoint();
    DisjointOverlay(Utils.CommonHeaders(), PageRole());
  }


  /** The image header names shared with the other roles are not common header names. */
  lemma SharedNamesNotCommon()
    ensures var common := Utils.CommonHeaders().Keys;
      "Accept" !in common && "Sec-Fetch-Site" !in common && "Sec-Fetch-Mode" !in common
      && "Sec-Fetch-Dest" !in common
  {
    CommonNames();
  }

  /** The name only page fetches send is not a common header name. */
  lemma PageOnlyNameNotCommon()
    ensures "Upgrade-Insecure-Requests" !in Utils.CommonHeaders().Keys
  {
    CommonNames();
  }

  /** The names only images send are not common header names. */
  lemma ImageOnlyNamesNotCommon()
    ensures var common := Utils.CommonHeaders().Keys;
      "Sec-Fetch-Storage-Access" !in common && "Referer" !in common
      && "Accept-Encoding" !in common && "Priority" !in common
  {
    CommonNames();
  }

  /** No image header name is a common header name. */
  lemma ImageDisjoint()
    ensures Utils.CommonHeaders().Keys !! ImageRole().Keys
  {
    ImageNames();
    SharedNamesNotCommon();
    ImageOnlyNamesNotCommon();
  }

  /** The image profile: the five common headers and the eight image headers, 13 in all. */
  lemma ImageProfileSize()
    ensures |ImageProfile()| == 13
  {
    ImageDisjoint();
    ImageNames();
    CommonNames();
    DisjointOverlay(Utils.CommonHeaders(), ImageRole());
  }

  /** The image profile keeps every common header and every image header with its value. */
  lemma ImageProfileShape()
    ensures Utils.CommonHeaders().Keys !! ImageRole().Keys
    ensures forall k :: k in Utils.CommonHeaders() ==> k in ImageProfile() && ImageProfile()[k] == Utils.CommonHeaders()[k]
    ensures forall k :: k in ImageRole() ==> k in ImageProfile() && ImageProfile()[k] == ImageRole()[k]
  {
    ImageDisjoint();
    DisjointOverlay(Utils.CommonHeaders(), ImageRole());
  }

  /** The values that tell the API profile apart. */
  lemma ApiValues()
    ensures "Accept" in ApiProfile() && ApiProfile()["Accept"] == "*/*"
    ensures "Sec-Fetch-Mode" in ApiProfile() && ApiProfile()["Sec-Fetch-Mode"] == "cors"
  {
    ApiProfileShape();
  }

  /** The value that tells the page profile apart. */
  lemma PageValues()
    ensures "Sec-Fetch-Mode" in PageProfile() && PageProfile()["Sec-Fetch-Mode"] == "navigate"
  {
    PageProfileShape();
  }

  /** The values that tell the image profile apart. */
  lemma ImageValues()
    ensures "Sec-Fetch-Dest" in ImageProfile() && ImageProfile()["Sec-Fetch-Dest"] == "image"
    ensures "Referer" in ImageProfile() && ImageProfile()["Referer"] == "https://comick.live/"
  {
    ImageProfileShape();
  }

  /** HeaderManager keeps the four header sets it was built with; it never changes them. */
  class HeaderManager {
    const commonHeaders: Headers
    const apiHeaders: Headers
    const pageHeaders: Headers
    const imageHeaders: Headers

    /** The sets NewHeaderManager installs. */
    ghost predicate Valid()
      reads this
    {
      && commonHeaders == Utils.CommonHeaders()
      && apiHeaders == ApiRole()
      && pageHeaders == PageRole()
      && imageHeaders == ImageRole()
    }

    /** NewHeaderManager. */
    constructor ()
      ensures Valid()
    {
      commonHeaders := Utils.CommonHeaders();
      apiHeaders := ApiRole();
      pageHeaders := PageRole();
      imageHeaders := ImageRole();
    }

    /** mergeHeaders: a fresh map filled set by set, key by key. */
    method MergeHeaders(headerSets: seq<Headers>) returns (result: Headers)
      ensures result == Merged(headerSets)
    {
      result := map[];
      for i := 0 to |headerSets|
        invariant result == Merged(headerSets[..i])
      {
        var headers := headerSets[i];
        var pending := headers.Keys;
        while pending != {}
          invariant pending <= headers.Keys
          invariant result == Merged(headerSets[..i]) + (map k | k in headers.Keys - pending :: headers[k])
          decreases pending
        {
          var key :| key in pending;
          result := result[key := headers[key]];
          pending := pending - {key};
        }
        assert headers == map k | k in headers.Keys - pending :: headers[k];
        assert headerSets[..i + 1][..i] == headerSets[..i];
      }
      assert headerSets[..|headerSets|] == headerSets;
    }

    /** GetAPIHeaders. */
    method GetAPIHeaders() returns (h: Headers)
      requires Valid()
      ensures h == ApiProfile()
    {
      h := MergeHeaders([commonHeaders, apiHeaders]);
      MergeTwo(commonHeaders, apiHeaders);
    }

    /** GetPageHeaders. */
    method GetPageHeaders() returns (h: Headers)
      requires Valid()
      ensures h == PageProfile()
    {
      h := MergeHeaders([commonHeaders, pageHeaders]);
      MergeTwo(commonHeaders, pageHeaders);
    }

    /** GetImageHeaders. */
    method GetImageHeaders() returns (h: Headers)
      requires Valid()
      ensures h == ImageProfile()
    {
      h := MergeHeaders([commonHeaders, imageHeaders]);
      MergeTwo(commonHeaders, imageHeaders);
    }
  }
}
