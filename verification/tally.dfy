/**
  The run counters and the file-kind classification that picks which copy
  counter an entry increments.
 */
module Tally {
  import opened Text

  datatype Kind = Photo | Video | Other

  /** `".jpg" in file_name.lower()`: the test for photos, also the test for validation. */
  predicate IsJpg(name: string)
  {
    Contains(Lower(name), ".jpg")
  }

  /** Lines 164-169 and 181-186: ".jpg" first, then ".mov", anywhere in the lower-cased name. */
  function KindOf(name: string): (r: Kind)
    ensures r == Photo ==> exists i :: OccursAt(Lower(name), ".jpg", i)
    ensures (exists i :: OccursAt(Lower(name), ".jpg", i)) ==> r == Photo
    ensures r == Video ==> exists i :: OccursAt(Lower(name), ".mov", i)
    ensures r != Photo && (exists i :: OccursAt(Lower(name), ".mov", i)) ==> r == Video
    ensures r == Other ==> forall i :: !OccursAt(Lower(name), ".mov", i)
  {
    if Contains(Lower(name), ".jpg") then Photo
    else if Contains(Lower(name), ".mov") then Video
    else Other
  }

  /** A name whose lower-cased form has ".jpg" at position `i` is a photo, whatever else it contains. */
  lemma JpgAnywhereIsPhoto(name: string, i: int)
    requires OccursAt(Lower(name), ".jpg", i)
    ensures KindOf(name) == Photo && IsJpg(name)
  {
  }

  /** The extension's case does not matter: "IMG_0001.JPG" is a photo. */
  lemma {:induction false} UpperCaseJpgIsPhoto(stem: string)
    ensures KindOf(stem + ".JPG") == Photo
  {
    LowerAppend(stem, ".JPG");
    assert Lower(".JPG") == ".jpg";
    ContainsSuffix(Lower(stem), ".jpg");
  }

  /** "IMG_0002.MOV" is a video, provided the stem itself mentions neither ".jpg" nor ".mov". */
  lemma {:induction false} UpperCaseMovIsVideo(stem: string)
    requires !Contains(Lower(stem), ".jpg")
    ensures KindOf(stem + ".MOV") == Video
  {
    LowerAppend(stem, ".MOV");
    assert Lower(".MOV") == ".mov";
    ContainsSuffix(Lower(stem), ".mov");
    ShortTailAddsNothing(Lower(stem), ".mov", ".jpg");
  }

  /** A ".PNG" file falls through to the other counter when the stem mentions neither extension. */
  lemma {:induction false} PngIsOther(stem: string)
    requires !Contains(Lower(stem), ".jpg") && !Contains(Lower(stem), ".mov")
    ensures KindOf(stem + ".PNG") == Other
  {
    LowerAppend(stem, ".PNG");
    assert Lower(".PNG") == ".png";
    ShortTailAddsNothing(Lower(stem), ".png", ".jpg");
    ShortTailAddsNothing(Lower(stem), ".png", ".mov");
  }

  /**
    Appending a four-character extension other than `pattern` (both start
    with their only '.') creates no new occurrence of `pattern`.
   */
  lemma ShortTailAddsNothing(s: string, tail: string, pattern: string)
    requires |tail| == |pattern| == 4 && tail != pattern
    requires tail[0] == '.' && pattern[0] == '.'
    requires '.' !in tail[1..] && '.' !in pattern[1..]
    requires !Contains(s, pattern)
    ensures !Contains(s + tail, pattern)
  {
    forall i | 0 <= i && i + 4 <= |s + tail|
      ensures !OccursAt(s + tail, pattern, i)
    {
      var window := (s + tail)[i..i + 4];
      if i + 4 <= |s| {
        assert window == s[i..i + 4];
        assert !OccursAt(s, pattern, i);
      } else if i < |s| {
        var d := |s| - i;
        assert window[d] == tail[0] == '.';
        assert pattern[1..][d - 1] == pattern[d];
        assert window[d] != pattern[d];
      } else {
        assert window == tail;
      }
    }
  }

  /** How many photos, videos and other files were copied, and how many entries were ignored. */
  datatype Counters = Counters(photos: nat, videos: nat, other: nat, ignored: nat)
  {
    /** All four counters together: one per entry that reached a decision. */
    function Total(): nat
    {
      photos + videos + other + ignored
    }

    /** The counter for a copied file of kind `k` goes up by one. */
    function Copied(k: Kind): (r: Counters)
      ensures r.Total() == Total() + 1 && r.ignored == ignored
      ensures r.photos == photos + (if k == Photo then 1 else 0)
      ensures r.videos == videos + (if k == Video then 1 else 0)
      ensures r.other == other + (if k == Other then 1 else 0)
    {
      match k
      case Photo => this.(photos := photos + 1)
      case Video => this.(videos := videos + 1)
      case Other => this.(other := other + 1)
    }

    /** `files_ignored += 1`. */
    function Ignored(): (r: Counters)
      ensures r.Total() == Total() + 1
      ensures r == Counters(photos, videos, other, ignored + 1)
    {
      this.(ignored := ignored + 1)
    }

    /** No counter went down, and together they went up by at most one. */
    predicate AtMostOneMore(after: Counters)
    {
      && photos <= after.photos && videos <= after.videos
      && other <= after.other && ignored <= after.ignored
      && after.Total() <= Total() + 1
    }
  }

  const Zero: Counters := Counters(0, 0, 0, 0)
}
