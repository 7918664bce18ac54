/** The photo records of the gallery page and the three list transformations
    the page applies to them: append an upload, filter out an id, and map a
    like toggle over the matching records. Everything here is a value; the
    page state that holds the list lives in module Gallery. */
module Photos {

  datatype Option<T> = None | Some(value: T)

  /** One photo record. `isLiked` is optional in the page's record type;
      an absent flag reads as "not liked". `likes` is a plain integer with
      no floor at zero; it stays non-negative for every record the page
      builds (see `CountConsistent`), and can go negative only from a saved
      record whose flag is set with a count of zero. */
  datatype Photo = Photo(
    id: int,
    title: string,
    description: string,
    image: string,
    likes: int,
    isLiked: Option<bool>)

  /** What the upload form hands to the page: the image is the data URI
      produced by the file conversion. */
  datatype NewUpload = NewUpload(title: string, description: string, image: string)

  /** JavaScript truthiness of the optional flag: only a defined `true` is liked. */
  predicate IsLiked(p: Photo) {
    p.isLiked == Some(true)
  }

  // ---------------------------------------------------------------------
  // Identity of records

  /** Number of records carrying the given id. */
  function CountId(photos: seq<Photo>, id: int): nat {
    if photos == [] then 0
    else (if photos[0].id == id then 1 else 0) + CountId(photos[1..], id)
  }

  predicate HasId(photos: seq<Photo>, id: int) {
    exists p :: p in photos && p.id == id
  }

  predicate UniqueIds(photos: seq<Photo>) {
    forall i, j :: 0 <= i < j < |photos| ==> photos[i].id != photos[j].id
  }

  /** Ids in insertion order are strictly ascending, as timestamp ids are
      when the clock only moves forward. */
  predicate AscendingIds(photos: seq<Photo>) {
    forall i, j :: 0 <= i < j < |photos| ==> photos[i].id < photos[j].id
  }

  /** `a` is obtained from `b` by dropping some records, keeping the order
      of the rest. */
  ghost predicate IsSubsequence(a: seq<Photo>, b: seq<Photo>)
    decreases |b|
  {
    if a == [] then true
    else if b == [] then false
    else (a[0] == b[0] && IsSubsequence(a[1..], b[1..])) || IsSubsequence(a, b[1..])
  }

  lemma {:induction false} CountIdZero(photos: seq<Photo>, id: int)
    ensures CountId(photos, id) == 0 <==> !HasId(photos, id)
  {
    if photos != [] {
      CountIdZero(photos[1..], id);
      assert photos[0] in photos;
      if HasId(photos[1..], id) {
        var p :| p in photos[1..] && p.id == id;
        assert p in photos;
      }
      if HasId(photos, id) && photos[0].id != id {
        var p :| p in photos && p.id == id;
        assert p in photos[1..];
      }
    }
  }

  /** Ascending ids are pairwise distinct. */
  lemma AscendingIdsAreUnique(photos: seq<Photo>)
    requires AscendingIds(photos)
    ensures UniqueIds(photos)
  {
  }

  /** Facts about the head and tail of a list with unique ids. */
  lemma UniqueIdsTail(photos: seq<Photo>)
    requires UniqueIds(photos) && photos != []
    ensures UniqueIds(photos[1..])
    ensures !HasId(photos[1..], photos[0].id)
  {
    forall p | p in photos[1..] ensures p.id != photos[0].id {
      var j :| 0 <= j < |photos[1..]| && photos[1..][j] == p;
      assert photos[j + 1] == p;
    }
  }

  lemma UniqueIdsCons(p: Photo, photos: seq<Photo>)
    requires UniqueIds(photos) && !HasId(photos, p.id)
    ensures UniqueIds([p] + photos)
  {
    var s := [p] + photos;
    forall i, j | 0 <= i < j < |s| ensures s[i].id != s[j].id {
      if i == 0 {
        assert s[j] == photos[j - 1];
        assert photos[j - 1] in photos;
      } else {
        assert s[i] == photos[i - 1] && s[j] == photos[j - 1];
      }
    }
  }

  // ---------------------------------------------------------------------
  // Upload: a fresh record stamped by the clock, appended at the end

  /** The record built for an upload: the clock reading becomes the id, the
      form's fields are copied, and it starts unliked with no likes. */
  function NewPhoto(now: int, u: NewUpload): Photo {
    Photo(now, u.title, u.description, u.image, 0, Some(false))
  }

  function AppendUpload(photos: seq<Photo>, now: int, u: NewUpload): seq<Photo> {
    photos + [NewPhoto(now, u)]
  }

  lemma UploadAppends(photos: seq<Photo>, now: int, u: NewUpload)
    ensures var r := AppendUpload(photos, now, u);
      && |r| == |photos| + 1
      && r[..|photos|] == photos
      && r[|photos|].id == now
      && r[|photos|].title == u.title
      && r[|photos|].description == u.description
      && r[|photos|].image == u.image
      && r[|photos|].likes == 0
      && r[|photos|].isLiked == Some(false)
  {
  }

  /** A clock reading later than every id keeps ids ascending. */
  lemma UploadKeepsAscendingIds(photos: seq<Photo>, now: int, u: NewUpload)
    requires AscendingIds(photos)
    requires forall p :: p in photos ==> p.id < now
    ensures AscendingIds(AppendUpload(photos, now, u))
  {
    var r := AppendUpload(photos, now, u);
    forall i, j | 0 <= i < j < |r| ensures r[i].id < r[j].id {
      if j == |photos| {
        assert r[i] == photos[i] && photos[i] in photos;
      } else {
        assert r[i] == photos[i] && r[j] == photos[j];
      }
    }
  }

  lemma UploadKeepsUniqueIds(photos: seq<Photo>, now: int, u: NewUpload)
    requires UniqueIds(photos)
    requires !HasId(photos, now)
    ensures UniqueIds(AppendUpload(photos, now, u))
  {
    var r := AppendUpload(photos, now, u);
    forall i, j | 0 <= i < j < |r| ensures r[i].id != r[j].id {
      if j == |photos| {
        assert r[i] == photos[i] && photos[i] in photos;
      } else {
        assert r[i] == photos[i] && r[j] == photos[j];
      }
    }
  }

  // ---------------------------------------------------------------------
  // Delete: keep, in order, the records whose id differs from the given one

  /** Every record with the given id is dropped; all others are kept. */
  function RemoveById(photos: seq<Photo>, id: int): (r: seq<Photo>)
    ensures |r| <= |photos|
    ensures forall p :: p in r <==> p in photos && p.id != id
  {
    if photos == [] then []
    else
      assert photos == [photos[0]] + photos[1..];
      if photos[0].id == id then RemoveById(photos[1..], id)
      else [photos[0]] + RemoveById(photos[1..], id)
  }

  /** The records kept stay in their original relative order. */
  lemma {:induction false} RemoveByIdKeepsOrder(photos: seq<Photo>, id: int)
    ensures IsSubsequence(RemoveById(photos, id), photos)
  {
    if photos != [] {
      RemoveByIdKeepsOrder(photos[1..], id);
      var r := RemoveById(photos, id);
      if photos[0].id != id {
        assert r[0] == photos[0] && r[1..] == RemoveById(photos[1..], id);
      }
    }
  }

  /** Each record occurs in the result exactly as often as in the input,
      unless it carries the removed id, in which case it does not occur. */
  lemma {:induction false} RemoveByIdCounts(photos: seq<Photo>, id: int, q: Photo)
    ensures multiset(RemoveById(photos, id))[q] == if q.id == id then 0 else multiset(photos)[q]
  {
    if photos != [] {
      RemoveByIdCounts(photos[1..], id, q);
      assert photos == [photos[0]] + photos[1..];
    }
  }

  /** The list shrinks by the number of records that carry the id. */
  lemma {:induction false} RemoveByIdLength(photos: seq<Photo>, id: int)
    ensures |RemoveById(photos, id)| == |photos| - CountId(photos, id)
  {
    if photos != [] {
      RemoveByIdLength(photos[1..], id);
    }
  }

  /** The filter is the identity exactly when no record has the id. */
  lemma {:induction false} RemoveByIdUnchanged(photos: seq<Photo>, id: int)
    ensures RemoveById(photos, id) == photos <==> !HasId(photos, id)
  {
    if photos != [] && !HasId(photos, id) {
      assert photos[0] in photos;
      forall p | p in photos[1..] ensures p.id != id {
        assert p in photos;
      }
      RemoveByIdUnchanged(photos[1..], id);
      assert photos == [photos[0]] + photos[1..];
    }
  }

  /** With unique ids, deleting the id of the record at position k removes
      exactly that record. */
  lemma {:induction false} RemoveByIdAt(photos: seq<Photo>, k: nat)
    requires UniqueIds(photos) && k < |photos|
    ensures RemoveById(photos, photos[k].id) == photos[..k] + photos[k + 1..]
  {
    var id := photos[k].id;
    UniqueIdsTail(photos);
    if k == 0 {
      RemoveByIdUnchanged(photos[1..], id);
    } else {
      var tail := photos[1..];
      assert tail[k - 1] == photos[k];
      assert photos[0].id != id;
      RemoveByIdAt(tail, k - 1);
      assert photos[..k] + photos[k + 1..] == [photos[0]] + (tail[..k - 1] + tail[k..]);
    }
  }

  lemma {:induction false} RemoveByIdConcat(a: seq<Photo>, b: seq<Photo>, id: int)
    ensures RemoveById(a + b, id) == RemoveById(a, id) + RemoveById(b, id)
  {
    if a == [] {
      assert a + b == b;
    } else {
      assert (a + b)[0] == a[0];
      assert (a + b)[1..] == a[1..] + b;
      RemoveByIdConcat(a[1..], b, id);
    }
  }

  lemma {:induction false} RemoveByIdKeepsUniqueIds(photos: seq<Photo>, id: int)
    requires UniqueIds(photos)
    ensures UniqueIds(RemoveById(photos, id))
  {
    if photos != [] {
      UniqueIdsTail(photos);
      RemoveByIdKeepsUniqueIds(photos[1..], id);
      if photos[0].id != id {
        var rest := RemoveById(photos[1..], id);
        forall p | p in rest ensures p.id != photos[0].id {
          assert p in photos[1..];
        }
        UniqueIdsCons(photos[0], rest);
      }
    }
  }

  /** Deleting a just-uploaded photo by its fresh id gives back the list
      as it was before the upload. */
  lemma UploadThenRemove(photos: seq<Photo>, now: int, u: NewUpload)
    requires !HasId(photos, now)
    ensures RemoveById(AppendUpload(photos, now, u), now) == photos
  {
    RemoveByIdConcat(photos, [NewPhoto(now, u)], now);
    RemoveByIdUnchanged(photos, now);
  }

  // ---------------------------------------------------------------------
  // Like: replace each record with the given id by its toggle, keep the rest

  /** Flip the flag (absent counts as not liked) and move the count by one
      in the direction of the new flag, with no floor at zero. */
  function ToggleLike(p: Photo): (r: Photo)
    ensures r.id == p.id && r.title == p.title && r.description == p.description && r.image == p.image
    ensures r.isLiked.Some? && IsLiked(r) == !IsLiked(p)
    ensures r.likes == p.likes + 1 || r.likes == p.likes - 1
    ensures r.likes > p.likes <==> IsLiked(r)
  {
    var isLiked := !IsLiked(p);
    p.(isLiked := Some(isLiked), likes := if isLiked then p.likes + 1 else p.likes - 1)
  }

  /** Toggling twice restores the count and the flag's meaning; a defined
      flag is restored exactly. */
  lemma ToggleLikeTwice(p: Photo)
    ensures ToggleLike(ToggleLike(p)).likes == p.likes
    ensures IsLiked(ToggleLike(ToggleLike(p))) == IsLiked(p)
    ensures p.isLiked.Some? ==> ToggleLike(ToggleLike(p)) == p
    ensures p.isLiked.None? ==> ToggleLike(ToggleLike(p)) == p.(isLiked := Some(false))
  {
    match p.isLiked
    case None =>
    case Some(b) => assert p == p.(isLiked := Some(b));
  }

  function LikeById(photos: seq<Photo>, id: int): (r: seq<Photo>)
    ensures |r| == |photos|
    ensures forall i :: 0 <= i < |photos| ==>
      r[i] == if photos[i].id == id then ToggleLike(photos[i]) else photos[i]
  {
    if photos == [] then []
    else [if photos[0].id == id then ToggleLike(photos[0]) else photos[0]] + LikeById(photos[1..], id)
  }

  /** Liking keeps every id in place, so it keeps ids unique and ascending. */
  lemma LikeByIdKeepsIds(photos: seq<Photo>, id: int)
    ensures forall i :: 0 <= i < |photos| ==> LikeById(photos, id)[i].id == photos[i].id
    ensures UniqueIds(photos) ==> UniqueIds(LikeById(photos, id))
    ensures AscendingIds(photos) ==> AscendingIds(LikeById(photos, id))
  {
  }

  /** Liking changes the list exactly when some record has the id. */
  lemma LikeByIdUnchanged(photos: seq<Photo>, id: int)
    ensures LikeById(photos, id) == photos <==> !HasId(photos, id)
  {
    var r := LikeById(photos, id);
    if HasId(photos, id) {
      var p :| p in photos && p.id == id;
      var i :| 0 <= i < |photos| && photos[i] == p;
      assert IsLiked(r[i]) != IsLiked(photos[i]);
    } else {
      forall i | 0 <= i < |photos| ensures r[i] == photos[i] {
        assert photos[i] in photos;
      }
    }
  }

  /** Liking twice restores every count and every liked state, and restores
      each record exactly unless its flag was absent (it becomes `false`). */
  lemma LikeByIdTwice(photos: seq<Photo>, id: int)
    ensures var r := LikeById(LikeById(photos, id), id);
      && |r| == |photos|
      && forall i :: 0 <= i < |photos| ==>
        && r[i].likes == photos[i].likes
        && IsLiked(r[i]) == IsLiked(photos[i])
        && (photos[i].isLiked.Some? ==> r[i] == photos[i])
  {
    var r := LikeById(LikeById(photos, id), id);
    forall i | 0 <= i < |photos|
      ensures r[i].likes == photos[i].likes && IsLiked(r[i]) == IsLiked(photos[i])
      ensures photos[i].isLiked.Some? ==> r[i] == photos[i]
    {
      ToggleLikeTwice(photos[i]);
    }
  }

  /** When every record has a defined flag (as every default and every
      upload does), liking is an involution. */
  lemma LikeByIdInvolution(photos: seq<Photo>, id: int)
    requires forall p :: p in photos ==> p.isLiked.Some?
    ensures LikeById(LikeById(photos, id), id) == photos
  {
    var r := LikeById(LikeById(photos, id), id);
    forall i | 0 <= i < |photos| ensures r[i] == photos[i] {
      assert photos[i] in photos;
      ToggleLikeTwice(photos[i]);
    }
  }

  /** Deleting a photo after liking it gives the same list as deleting it. */
  lemma {:induction false} RemoveAfterLike(photos: seq<Photo>, id: int)
    ensures RemoveById(LikeById(photos, id), id) == RemoveById(photos, id)
  {
    if photos != [] {
      RemoveAfterLike(photos[1..], id);
      assert LikeById(photos, id)[1..] == LikeById(photos[1..], id);
    }
  }

  // ---------------------------------------------------------------------
  // Like counts: the flag and the count move together

  /** A liked record accounts for at least its own like. Every record the
      page builds satisfies this, and then its count is never negative. */
  predicate CountConsistent(p: Photo) {
    p.likes >= (if IsLiked(p) then 1 else 0)
  }

  predicate AllCountsConsistent(photos: seq<Photo>) {
    forall p :: p in photos ==> CountConsistent(p)
  }

  lemma ConsistentCountIsNonNegative(photos: seq<Photo>)
    requires AllCountsConsistent(photos)
    ensures forall p :: p in photos ==> p.likes >= 0
  {
  }

  lemma ToggleLikeKeepsCountConsistent(p: Photo)
    requires CountConsistent(p)
    ensures CountConsistent(ToggleLike(p)) && ToggleLike(p).likes >= 0
  {
  }

  lemma {:induction false} LikeByIdKeepsCountsConsistent(photos: seq<Photo>, id: int)
    requires AllCountsConsistent(photos)
    ensures AllCountsConsistent(LikeById(photos, id))
  {
    var r := LikeById(photos, id);
    forall q | q in r ensures CountConsistent(q) {
      var i :| 0 <= i < |r| && r[i] == q;
      assert photos[i] in photos;
      if photos[i].id == id {
        ToggleLikeKeepsCountConsistent(photos[i]);
      }
    }
  }

  lemma UploadKeepsCountsConsistent(photos: seq<Photo>, now: int, u: NewUpload)
    requires AllCountsConsistent(photos)
    ensures CountConsistent(NewPhoto(now, u))
    ensures AllCountsConsistent(AppendUpload(photos, now, u))
  {
  }

  lemma RemoveByIdKeepsCountsConsistent(photos: seq<Photo>, id: int)
    requires AllCountsConsistent(photos)
    ensures AllCountsConsistent(RemoveById(photos, id))
  {
  }

  /** A saved record whose flag is set with a count of zero drops below
      zero on its next toggle: storage content is taken as it is. */
  lemma SavedRecordCanGoNegative()
    ensures ToggleLike(Photo(1, "", "", "", 0, Some(true))).likes == -1
  {
  }

  // ---------------------------------------------------------------------
  // Start-up list

  /** The six built-in photos used when nothing is saved. */
  function Defaults(): seq<Photo> {
    [ Photo(1, "晨光", "清晨的第一縷陽光",
            "https://images.unsplash.com/photo-1506744038136-46273834b3fb", 128, Some(false)),
      Photo(2, "山間小路", "寧靜的山間小徑",
            "https://images.unsplash.com/photo-1501854140801-50d01698950b", 95, Some(false)),
      Photo(3, "海邊日落", "浪漫的海邊日落時分",
            "https://images.unsplash.com/photo-1507525428034-b723cf961d3e", 156, Some(false)),
      Photo(4, "城市夜景", "繁華都市的璀璨燈火",
            "https://images.unsplash.com/photo-1519501025264-65ba15a82390", 203, Some(false)),
      Photo(5, "雪山之巔", "白雪皚皚的山峰",
            "https://images.unsplash.com/photo-1454496522488-7a8e488e8606", 178, Some(false)),
      Photo(6, "沙漠綠洲", "沙漠中的生命奇跡",
            "https://images.unsplash.com/photo-1509316785289-025f5b846b35", 145, Some(false)) ]
  }

  /** The list the page starts from: the saved list verbatim when there is
      one, the defaults otherwise. */
  function Initial(saved: Option<seq<Photo>>): seq<Photo> {
    match saved
    case Some(s) => s
    case None => Defaults()
  }

  lemma DefaultsShape()
    ensures |Defaults()| == 6
    ensures forall i :: 0 <= i < 6 ==> Defaults()[i].id == i + 1
    ensures forall p :: p in Defaults() ==> 1 <= p.id <= 6 && p.isLiked == Some(false) && p.likes >= 0
    ensures AscendingIds(Defaults()) && UniqueIds(Defaults())
    ensures AllCountsConsistent(Defaults())
  {
    AscendingIdsAreUnique(Defaults());
  }

  /** Starting from the defaults, upload one photo and delete it again by its
      id: the seventh record is the fresh unliked one, and deleting it gives
      back the six defaults in their order. */
  lemma DefaultsUploadThenDelete(now: int, u: NewUpload)
    requires now > 6
    ensures |AppendUpload(Defaults(), now, u)| == 7
    ensures AppendUpload(Defaults(), now, u)[6].likes == 0
    ensures AppendUpload(Defaults(), now, u)[6].isLiked == Some(false)
    ensures RemoveById(AppendUpload(Defaults(), now, u), now) == Defaults()
  {
    DefaultsShape();
    UploadThenRemove(Defaults(), now, u);
  }
}
