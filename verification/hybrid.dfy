/**
  The hybrid YouTube layout: one main video and up to four thumbnails of the other
  videos; clicking a thumbnail makes that video the main one and renders again.
  Videos are identified by their index in the loaded list, of length `n`.
 */
module HybridLayout {
  import opened Seqs

  /** The thumbnail cards `renderMoreVideos` may show at most. */
  const MaxThumbs: nat := 4

  /** Every index below `n` except `main`, in increasing order. */
  function Others(n: nat, main: int): (r: seq<nat>)
    ensures |r| <= n
    ensures forall k :: 0 <= k < |r| ==> r[k] < n && r[k] != main
  {
    if n == 0 then []
    else Others(n - 1, main) + (if n - 1 == main then [] else [n - 1])
  }

  /** The first `count` entries of `s`, or all of them when there are fewer. */
  function Take(s: seq<nat>, count: nat): (r: seq<nat>)
    ensures |r| == if |s| < count then |s| else count
    ensures r == s[..|r|]
  {
    if |s| < count then s else s[..count]
  }

  /** The thumbnails: the first four videos other than the main one, in list order. */
  function Thumbs(n: nat, main: int): seq<nat> {
    Take(Others(n, main), MaxThumbs)
  }

  /** `Others` lists exactly the indices below `n` other than `main`, in increasing order. */
  lemma {:induction false} OthersSpec(n: nat, main: int)
    ensures Ascending(Others(n, main))
    ensures forall i :: 0 <= i < n && i != main ==> i in Others(n, main)
    ensures |Others(n, main)| == if 0 <= main < n then n - 1 else n
  {
    if n > 0 {
      OthersSpec(n - 1, main);
    }
  }

  /** A shorter list of others is a prefix of a longer one. */
  lemma {:induction false} OthersPrefix(i: nat, n: nat, main: int)
    requires i <= n
    ensures |Others(i, main)| <= |Others(n, main)| && Others(i, main) == Others(n, main)[..|Others(i, main)|]
    decreases n - i
  {
    if i < n {
      OthersPrefix(i, n - 1, main);
      var shorter := Others(n - 1, main);
      assert Others(n, main)[..|shorter|] == shorter;
      assert Others(n, main)[..|Others(i, main)|] == shorter[..|Others(i, main)|];
    }
  }

  /**
    `renderMoreVideos()`: walk the list, skipping the main index, until four cards
    are placed or the list ends.
   */
  method MoreVideos(n: nat, main: int) returns (cards: seq<nat>)
    ensures cards == Thumbs(n, main)
    ensures |cards| <= MaxThumbs && main !in cards
  {
    cards := [];
    var count := 0;
    var i := 0;
    while i < n && count < 4
      invariant i <= n
      invariant count == |cards| <= 4
      invariant cards == Others(i, main)
    {
      if i != main {
        cards := cards + [i];
        count := count + 1;
      }
      i := i + 1;
    }
    OthersPrefix(i, n, main);
    if i < n {
      assert |cards| == 4;
    }
  }

  /** What `renderLayout` shows. */
  datatype Layout =
    | NoVideos                                  // `showErrorMessage()`
    | Shown(main: nat, thumbs: seq<nat>)        // the main area and the thumbnails
    | MainMissing                               // `allVideos[currentMainIndex]` is undefined and rendering the main area fails

  /** `renderLayout()` for `n` loaded videos and the current main index. */
  function RenderLayout(n: nat, main: int): (l: Layout)
    ensures l == NoVideos <==> n == 0
    ensures l.Shown? <==> 0 <= main < n
    ensures l.Shown? ==> l.main == main && main !in l.thumbs && |l.thumbs| == if n - 1 < 4 then n - 1 else 4
    ensures l.Shown? ==> forall k :: 0 <= k < |l.thumbs| ==> l.thumbs[k] < n
  {
    OthersSpec(n, main);
    if n == 0 then NoVideos
    else if 0 <= main < n then Shown(main, Thumbs(n, main))
    else MainMissing
  }

  /** At start-up (`currentMainIndex = 0`) the first video is the main one and the next ones, up to four, are the thumbnails. */
  lemma StartLayout(n: nat)
    requires n > 0
    ensures RenderLayout(n, 0).Shown? && RenderLayout(n, 0).main == 0
    ensures forall k :: 0 <= k < |RenderLayout(n, 0).thumbs| ==> RenderLayout(n, 0).thumbs[k] == k + 1
  {
    var t := Others(n, 0);
    OthersSpec(n, 0);
    forall k | 0 <= k < |t| ensures t[k] == k + 1 {
      OthersAfterZero(n, k);
    }
  }

  lemma {:induction false} OthersAfterZero(n: nat, k: nat)
    requires k < |Others(n, 0)|
    ensures Others(n, 0)[k] == k + 1
  {
    OthersSpec(n, 0);
    if k < |Others(n - 1, 0)| {
      OthersAfterZero(n - 1, k);
    }
  }

  /**
    Clicking a thumbnail (`currentMainIndex = index; renderLayout()`): the clicked
    video, which was not the main one, becomes the main one and is no longer among
    the thumbnails.
   */
  lemma ClickThumbnail(n: nat, main: nat, index: nat)
    requires main < n && index in Thumbs(n, main)
    ensures RenderLayout(n, index) == Shown(index, Thumbs(n, index))
    ensures index !in Thumbs(n, index)
    ensures index != main
  {
    OthersSpec(n, index);
  }
}
