/**
 * The profile page: the signed-in user's reviews and preferences. The page
 * keeps two copies of the reviews, the list stored under "cafe_comments"
 * (every user's reviews) and `myReviews` (the current user's), and its delete
 * and save-edit handlers update both. The pure pieces (the filters, the id
 * replacement, the overall-rating mean and the cafe-name lookup) are functions;
 * the page state is a class whose methods are the event handlers.
 */
module Profile {
  import opened Sequences
  import opened Preferences

  datatype Option<T> = None | Some(value: T)

  /** One stored review. `rating` is the overall rating, the other four are star counts. */
  datatype UserReview = UserReview(
    id: string,
    cafeId: int,
    username: string,
    rating: real,
    drinkRating: int,
    foodRating: int,
    serviceRating: int,
    atmosphereRating: int,
    text: string,
    date: string,
    timestamp: int)

  /** The signed-in user; only the name takes part in the page's logic. */
  datatype User = User(username: string)

  /** A cafe of the catalogue; only its id and name take part in the name lookup. */
  datatype Cafe = Cafe(id: int, name: string)

  // ------------------------------------------------------------- review lists

  /** The load effect's filter callback `comment.username === user.username`. */
  function ByUser(username: string): UserReview -> bool {
    (c: UserReview) => c.username == username
  }

  /** The delete handler's filter callback `comment.id !== reviewId`. */
  function IdIsNot(id: string): UserReview -> bool {
    (c: UserReview) => c.id != id
  }

  /** The stored reviews written by `username`, each as often as stored, in stored order. */
  function UserReviewsOf(comments: seq<UserReview>, username: string): (r: seq<UserReview>)
    ensures forall c :: c in r <==> c in comments && c.username == username
    ensures forall c :: multiset(r)[c] == if c.username == username then multiset(comments)[c] else 0
    ensures IsSubsequence(r, comments)
  {
    FilterMultiplicity(comments, ByUser(username));
    Filter(comments, ByUser(username))
  }

  /** The reviews without the one(s) carrying `id`; everything else is kept, in order. */
  function WithoutReview(reviews: seq<UserReview>, id: string): (r: seq<UserReview>)
    ensures forall c :: c in r <==> c in reviews && c.id != id
    ensures forall c :: multiset(r)[c] == if c.id != id then multiset(reviews)[c] else 0
    ensures IsSubsequence(r, reviews)
  {
    FilterMultiplicity(reviews, IdIsNot(id));
    Filter(reviews, IdIsNot(id))
  }

  /** `reviews.map(r => r.id === updated.id ? updated : r)`. */
  function ReplaceReview(reviews: seq<UserReview>, updated: UserReview): (r: seq<UserReview>)
    ensures |r| == |reviews|
    ensures forall i :: 0 <= i < |r| ==> r[i].id == reviews[i].id
    ensures forall i :: 0 <= i < |r| && reviews[i].id == updated.id ==> r[i] == updated
    ensures forall i :: 0 <= i < |r| && reviews[i].id != updated.id ==> r[i] == reviews[i]
  {
    if reviews == [] then []
    else
      var rest := ReplaceReview(reviews[1..], updated);
      [if reviews[0].id == updated.id then updated else reviews[0]] + rest
  }

  /** Deleting a review commutes with picking out one user's reviews. */
  lemma DeleteKeepsUserView(comments: seq<UserReview>, username: string, id: string)
    ensures UserReviewsOf(WithoutReview(comments, id), username) ==
            WithoutReview(UserReviewsOf(comments, username), id)
  {
    FilterCommutes(comments, IdIsNot(id), ByUser(username));
  }

  /** Every stored review that carries `id` belongs to `username`. */
  predicate IdOwnedBy(comments: seq<UserReview>, id: string, username: string) {
    forall c :: c in comments && c.id == id ==> c.username == username
  }

  /**
   * Replacing a review commutes with picking out one user's reviews, provided
   * that no other user's stored review carries the edited id.
   */
  lemma {:induction false} ReplaceKeepsUserView(comments: seq<UserReview>, username: string, updated: UserReview)
    requires IdOwnedBy(comments, updated.id, updated.username)
    ensures UserReviewsOf(ReplaceReview(comments, updated), username) ==
            ReplaceReview(UserReviewsOf(comments, username), updated)
  {
    if comments != [] {
      var c := comments[0];
      assert c in comments;
      assert IdOwnedBy(comments[1..], updated.id, updated.username) by {
        forall x | x in comments[1..] ensures x in comments { }
      }
      ReplaceKeepsUserView(comments[1..], username, updated);
      var head := if c.id == updated.id then updated else c;
      assert ReplaceReview(comments, updated) == [head] + ReplaceReview(comments[1..], updated);
      assert ([head] + ReplaceReview(comments[1..], updated))[1..] == ReplaceReview(comments[1..], updated);
      if c.username == username {
        assert UserReviewsOf(comments, username) == [c] + UserReviewsOf(comments[1..], username);
        assert ([c] + UserReviewsOf(comments[1..], username))[1..] == UserReviewsOf(comments[1..], username);
      }
    }
  }

  // ----------------------------------------------------------------- ratings

  /** The mean of the four star ratings, the value `handleSaveEdit` stores as `rating`. */
  function OverallRating(review: UserReview): (rating: real)
    ensures 1 <= review.drinkRating <= 5 && 1 <= review.foodRating <= 5 &&
            1 <= review.serviceRating <= 5 && 1 <= review.atmosphereRating <= 5 ==>
              1.0 <= rating <= 5.0
    ensures review.drinkRating == review.foodRating == review.serviceRating == review.atmosphereRating ==>
              rating == review.drinkRating as real
  {
    (review.drinkRating + review.foodRating + review.serviceRating + review.atmosphereRating) as real / 4.0
  }

  /** The mean lies between any common lower and upper bound of the four ratings. */
  lemma OverallRatingBetween(review: UserReview, lo: int, hi: int)
    requires lo <= review.drinkRating <= hi && lo <= review.foodRating <= hi
    requires lo <= review.serviceRating <= hi && lo <= review.atmosphereRating <= hi
    ensures lo as real <= OverallRating(review) <= hi as real
  {
  }

  /** The four aspects the edit dialog rates with one to five stars. */
  datatype Aspect = Drink | Food | Service | Atmosphere

  /** The star rating a review gives one aspect. */
  function AspectRating(review: UserReview, aspect: Aspect): int {
    match aspect
    case Drink => review.drinkRating
    case Food => review.foodRating
    case Service => review.serviceRating
    case Atmosphere => review.atmosphereRating
  }

  /** The review after clicking star `star` of `aspect`: `{ ...editingReview, <aspect>Rating: star }`. */
  function WithRating(review: UserReview, aspect: Aspect, star: int): (r: UserReview)
    ensures AspectRating(r, aspect) == star
    ensures forall b :: b != aspect ==> AspectRating(r, b) == AspectRating(review, b)
    ensures r.id == review.id && r.cafeId == review.cafeId && r.username == review.username
    ensures r.rating == review.rating && r.text == review.text
    ensures r.date == review.date && r.timestamp == review.timestamp
  {
    match aspect
    case Drink => review.(drinkRating := star)
    case Food => review.(foodRating := star)
    case Service => review.(serviceRating := star)
    case Atmosphere => review.(atmosphereRating := star)
  }

  /** All four star ratings are between one and five. */
  predicate StarRated(review: UserReview) {
    1 <= review.drinkRating <= 5 && 1 <= review.foodRating <= 5 &&
    1 <= review.serviceRating <= 5 && 1 <= review.atmosphereRating <= 5
  }

  /** Once every aspect has been clicked, the saved overall rating lies between one and five. */
  lemma ClickedStarsGiveStarRating(review: UserReview, d: int, f: int, s: int, a: int)
    requires 1 <= d <= 5 && 1 <= f <= 5 && 1 <= s <= 5 && 1 <= a <= 5
    ensures var clicked := WithRating(WithRating(WithRating(WithRating(review, Drink, d), Food, f), Service, s), Atmosphere, a);
            StarRated(clicked) && 1.0 <= OverallRating(clicked) <= 5.0
  {
  }

  /** The review that saving `editing` writes: the edited copy with its mean as overall rating. */
  function Saved(editing: UserReview): (r: UserReview)
    ensures r.rating == OverallRating(editing)
    ensures r.(rating := editing.rating) == editing
    ensures StarRated(editing) ==> StarRated(r) && 1.0 <= r.rating <= 5.0
  {
    editing.(rating := OverallRating(editing))
  }

  /** After saving a star-rated edit, every review carrying its id has an overall rating in [1, 5]. */
  lemma SavedRatingInStarRange(reviews: seq<UserReview>, editing: UserReview)
    requires StarRated(editing)
    ensures forall c :: c in ReplaceReview(reviews, Saved(editing)) && c.id == editing.id ==>
              1.0 <= c.rating <= 5.0
  {
    var r := ReplaceReview(reviews, Saved(editing));
    forall c | c in r && c.id == editing.id
      ensures 1.0 <= c.rating <= 5.0
    {
      var i :| 0 <= i < |r| && r[i] == c;
      assert reviews[i].id == editing.id;
    }
  }

  // -------------------------------------------------------------- cafe names

  /** `cafes.find(c => c.id === cafeId)`: the first cafe with that id, if any. */
  function FindCafe(cafes: seq<Cafe>, cafeId: int): (r: Option<Cafe>)
    ensures r.None? <==> forall c :: c in cafes ==> c.id != cafeId
    ensures r.Some? ==> exists i :: 0 <= i < |cafes| && cafes[i] == r.value && r.value.id == cafeId &&
                                   forall j :: 0 <= j < i ==> cafes[j].id != cafeId
  {
    if cafes == [] then None
    else if cafes[0].id == cafeId then Some(cafes[0])
    else
      var r := FindCafe(cafes[1..], cafeId);
      assert forall c :: c in cafes ==> c == cafes[0] || c in cafes[1..];
      if r.Some? then
        var i :| 0 <= i < |cafes[1..]| && cafes[1..][i] == r.value && r.value.id == cafeId &&
                 forall j :: 0 <= j < i ==> cafes[1..][j].id != cafeId;
        assert cafes[i + 1] == r.value;
        assert forall j :: 0 <= j < i + 1 ==> cafes[j].id != cafeId by {
          forall j | 0 < j < i + 1 ensures cafes[j].id != cafeId {
            assert cafes[j] == cafes[1..][j - 1];
          }
        }
        r
      else
        r
  }

  /** `getCafeName`: the name of the first cafe with that id, or "Unknown Cafe" when there is none. */
  function GetCafeName(cafes: seq<Cafe>, cafeId: int): (name: string)
    ensures (forall c :: c in cafes ==> c.id != cafeId) ==> name == "Unknown Cafe"
    ensures forall i ::
              (0 <= i < |cafes| && cafes[i].id == cafeId && forall j :: 0 <= j < i ==> cafes[j].id != cafeId) ==>
              name == cafes[i].name
  {
    var found := FindCafe(cafes, cafeId);
    if found.Some? then found.value.name else "Unknown Cafe"
  }

  // --------------------------------------------------------------- page state

  /** The profile page's state and its event handlers. */
  class ProfilePage {
    /** The list stored under "cafe_comments": every user's reviews. */
    var storedComments: seq<UserReview>
    /** The reviews the page lists as the user's own. */
    var myReviews: seq<UserReview>
    /** The copy of a review the edit dialog is working on. */
    var editingReview: Option<UserReview>
    var editDialogOpen: bool
    var preferences: UserPreferences

    /** The page lists exactly the stored reviews of `username`. */
    predicate ShowsReviewsOf(username: string)
      reads this
    {
      myReviews == UserReviewsOf(storedComments, username)
    }

    /** The page as first rendered, over the given stored reviews. */
    constructor(stored: seq<UserReview>)
      ensures storedComments == stored && myReviews == []
      ensures editingReview == None && !editDialogOpen
      ensures preferences == InitialPreferences()
    {
      storedComments := stored;
      myReviews := [];
      editingReview := None;
      editDialogOpen := false;
      preferences := InitialPreferences();
    }

    /**
     * The load effect: with a signed-in user, list that user's stored reviews;
     * preferences saved with a `cafeTypes` field replace the current ones.
     */
    method LoadReviews(user: Option<User>, savedPreferences: Option<UserPreferences>)
      modifies this
      ensures user.Some? ==> ShowsReviewsOf(user.value.username)
      ensures user.None? ==> myReviews == old(myReviews)
      ensures preferences == if savedPreferences.Some? then savedPreferences.value else old(preferences)
      ensures storedComments == old(storedComments)
      ensures editingReview == old(editingReview) && editDialogOpen == old(editDialogOpen)
    {
      if savedPreferences.Some? {
        preferences := savedPreferences.value;
      }
      if user.Some? {
        myReviews := UserReviewsOf(storedComments, user.value.username);
      }
    }

    /** `handleDeleteReview`: drops the review from the stored list and from the page's list. */
    method DeleteReview(id: string)
      modifies this
      ensures storedComments == WithoutReview(old(storedComments), id)
      ensures myReviews == WithoutReview(old(myReviews), id)
      ensures forall c :: c in storedComments || c in myReviews ==> c.id != id
      ensures forall u :: old(ShowsReviewsOf(u)) ==> ShowsReviewsOf(u)
      ensures editingReview == old(editingReview) && editDialogOpen == old(editDialogOpen)
      ensures preferences == old(preferences)
    {
      storedComments := WithoutReview(storedComments, id);
      myReviews := WithoutReview(myReviews, id);
      forall u | old(ShowsReviewsOf(u))
        ensures ShowsReviewsOf(u)
      {
        DeleteKeepsUserView(old(storedComments), u, id);
      }
    }

    /** `handleEditReview`: opens the dialog on a copy of the review. */
    method EditReview(review: UserReview)
      modifies this
      ensures editingReview == Some(review) && editDialogOpen
      ensures storedComments == old(storedComments) && myReviews == old(myReviews)
      ensures preferences == old(preferences)
    {
      editingReview := Some(review);
      editDialogOpen := true;
    }

    /** A star button of the dialog, shown only while a review is being edited. */
    method RateAspect(aspect: Aspect, star: int)
      requires editingReview.Some? && 1 <= star <= 5
      modifies this
      ensures editingReview == Some(WithRating(old(editingReview.value), aspect, star))
      ensures storedComments == old(storedComments) && myReviews == old(myReviews)
      ensures editDialogOpen == old(editDialogOpen) && preferences == old(preferences)
    {
      editingReview := Some(WithRating(editingReview.value, aspect, star));
    }

    /** The comment box of the dialog, shown only while a review is being edited. */
    method SetText(text: string)
      requires editingReview.Some?
      modifies this
      ensures editingReview == Some(old(editingReview.value).(text := text))
      ensures storedComments == old(storedComments) && myReviews == old(myReviews)
      ensures editDialogOpen == old(editDialogOpen) && preferences == old(preferences)
    {
      editingReview := Some(editingReview.value.(text := text));
    }

    /** The cancel button: closes the dialog and keeps the edited copy. */
    method CancelEdit()
      modifies this
      ensures !editDialogOpen
      ensures editingReview == old(editingReview)
      ensures storedComments == old(storedComments) && myReviews == old(myReviews)
      ensures preferences == old(preferences)
    {
      editDialogOpen := false;
    }

    /**
     * `handleSaveEdit`: with no review being edited nothing happens; otherwise
     * the edited review, with its overall rating recomputed, replaces every
     * review with its id in both lists, and the dialog closes.
     */
    method SaveEdit()
      modifies this
      ensures old(editingReview).None? ==>
                storedComments == old(storedComments) && myReviews == old(myReviews) &&
                editingReview == old(editingReview) && editDialogOpen == old(editDialogOpen)
      ensures old(editingReview).Some? ==>
                var updated := Saved(old(editingReview.value));
                storedComments == ReplaceReview(old(storedComments), updated) &&
                myReviews == ReplaceReview(old(myReviews), updated) &&
                editingReview == None && !editDialogOpen
      ensures forall u ::
                (old(ShowsReviewsOf(u)) &&
                 (old(editingReview).Some? ==>
                    IdOwnedBy(old(storedComments), old(editingReview.value.id), old(editingReview.value.username)))) ==>
                ShowsReviewsOf(u)
      ensures preferences == old(preferences)
    {
      if editingReview.Some? {
        var editing := editingReview.value;
        var updated := Saved(editing);
        ghost var stored, mine := storedComments, myReviews;
        storedComments := ReplaceReview(storedComments, updated);
        myReviews := ReplaceReview(myReviews, updated);
        editDialogOpen := false;
        editingReview := None;
        forall u | mine == UserReviewsOf(stored, u) && IdOwnedBy(stored, editing.id, editing.username)
          ensures ShowsReviewsOf(u)
        {
          ReplaceKeepsUserView(stored, u, updated);
        }
      }
    }

    /** A preference checkbox: toggles its value in its list. */
    method TogglePreference(key: ListKey, value: string)
      modifies this
      ensures preferences == ToggleArrayPreference(old(preferences), key, value)
      ensures storedComments == old(storedComments) && myReviews == old(myReviews)
      ensures editingReview == old(editingReview) && editDialogOpen == old(editDialogOpen)
    {
      preferences := ToggleArrayPreference(preferences, key, value);
    }

    /** The distance select: replaces the maximum distance. */
    method ChooseMaxDistance(value: string)
      modifies this
      ensures preferences == SelectMaxDistance(old(preferences), value)
      ensures storedComments == old(storedComments) && myReviews == old(myReviews)
      ensures editingReview == old(editingReview) && editDialogOpen == old(editDialogOpen)
    {
      preferences := SelectMaxDistance(preferences, value);
    }
  }
}
