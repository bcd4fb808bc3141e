/** Product reviews (ReviewService): the review table, the guarded create
    and delete, and the per-product aggregates read from it. */
module ReviewSpec {
  import opened Common

  datatype Review = Review(productId: Id, userId: Id, rating: int, content: string, createdAt: nat)

  /** The exceptions ReviewService throws, one per message. */
  datatype ReviewError =
    | AlreadyReviewed   // "이미 이 상품에 리뷰를 작성하셨습니다."
    | RatingOutOfRange  // "별점은 1~5 사이여야 합니다."
    | ProductNotFound   // "상품을 찾을 수 없습니다."
    | UserNotFound      // "사용자를 찾을 수 없습니다."
    | ReviewNotFound    // "리뷰를 찾을 수 없습니다."
    | NotAuthor         // "본인의 리뷰만 삭제할 수 있습니다."

  datatype Tables = Tables(reviews: map<Id, Review>, nextReviewId: nat, clock: nat)

  const Empty := Tables(map[], 0, 0)

  const MIN_RATING := 1
  const MAX_RATING := 5

  /** `reviewRepository.existsByProductIdAndUserId(productId, userId)`. */
  predicate Reviewed(reviews: map<Id, Review>, productId: Id, userId: Id) {
    exists k :: k in reviews && reviews[k].productId == productId && reviews[k].userId == userId
  }

  ghost predicate Consistent(t: Tables) {
    && (forall k :: k in t.reviews ==> k < t.nextReviewId && t.reviews[k].createdAt < t.clock)
    && (forall k1, k2 :: k1 in t.reviews && k2 in t.reviews && k1 < k2 ==>
          t.reviews[k1].createdAt < t.reviews[k2].createdAt)
    // every stored rating is in [1, 5]
    && (forall k :: k in t.reviews ==> MIN_RATING <= t.reviews[k].rating <= MAX_RATING)
    // at most one review per (user, product)
    && (forall k1, k2 ::
          k1 in t.reviews && k2 in t.reviews &&
          t.reviews[k1].productId == t.reviews[k2].productId && t.reviews[k1].userId == t.reviews[k2].userId
          ==> k1 == k2)
  }

  lemma EmptyConsistent()
    ensures Consistent(Empty)
  {
  }

  // ---------------------------------------------------------------------
  // Updates.

  /** `createReview(requestDTO, userId)`: the duplicate check comes first,
      then the rating range, then product and user lookups. */
  function CreateReview(t: Tables, users: map<Id, User>, products: set<Id>,
                        productId: Id, rating: int, content: string, userId: Id)
    : (r: (Tables, Result<Id, ReviewError>))
  {
    if Reviewed(t.reviews, productId, userId) then (t, Err(AlreadyReviewed))
    else if rating < MIN_RATING || rating > MAX_RATING then (t, Err(RatingOutOfRange))
    else if productId !in products then (t, Err(ProductNotFound))
    else if userId !in users then (t, Err(UserNotFound))
    else
      var id := t.nextReviewId;
      (Tables(t.reviews[id := Review(productId, userId, rating, content, t.clock)], id + 1, t.clock + 1), Ok(id))
  }

  /** `deleteReview(reviewId, userId)`: only the author deletes. */
  function DeleteReview(t: Tables, reviewId: Id, userId: Id): (r: (Tables, Result<(), ReviewError>)) {
    if reviewId !in t.reviews then (t, Err(ReviewNotFound))
    else if t.reviews[reviewId].userId != userId then (t, Err(NotAuthor))
    else (t.(reviews := t.reviews - {reviewId}), Ok(()))
  }

  // ---------------------------------------------------------------------
  // Aggregates.

  /** `getReviewsByProductId(productId)`: `findByProductIdOrderByCreatedAtDesc`. */
  function ReviewsOf(t: Tables, productId: Id): seq<Id> {
    Select(t.reviews, (r: Review) => r.productId == productId, t.nextReviewId)
  }

  /** `getReviewCount(productId)`: `countByProductId`. */
  function ReviewCount(t: Tables, productId: Id): nat {
    |ReviewsOf(t, productId)|
  }

  /** The keys of the reviews attached to `productId`. */
  function ReviewIdsOf(reviews: map<Id, Review>, productId: Id): set<Id> {
    set k | k in reviews && reviews[k].productId == productId
  }

  /** The sum of the ratings of the reviews `ids`. */
  function RatingSum(reviews: map<Id, Review>, ids: seq<Id>): int
    requires forall k :: k in ids ==> k in reviews
  {
    if ids == [] then 0 else reviews[ids[0]].rating + RatingSum(reviews, ids[1..])
  }

  /** `Math.round(avg * 10)` for `avg = sum / n`, in exact arithmetic:
      the number of tenths nearest to the mean, halves rounded up. */
  function RoundedTenths(sum: int, n: nat): int
    requires n > 0
  {
    (20 * sum + n) / (2 * n)
  }

  /** `getAverageRating(productId)`, in tenths: 0 without reviews. */
  function AverageRating(t: Tables, productId: Id): int {
    var ids := ReviewsOf(t, productId);
    if ids == [] then 0 else RoundedTenths(RatingSum(t.reviews, ids), |ids|)
  }

  // ---------------------------------------------------------------------
  // Properties.

  /** `RoundedTenths` is the mean times ten rounded half up:
      r - 1/2 <= 10 * sum / n < r + 1/2. */
  lemma RoundedTenthsIsHalfUp(sum: int, n: nat)
    requires n > 0
    ensures var r := RoundedTenths(sum, n);
      2 * n * r - n <= 20 * sum < 2 * n * r + n
  {
    var r := RoundedTenths(sum, n);
    var m := (20 * sum + n) % (2 * n);
    assert 20 * sum + n == 2 * n * r + m;
  }

  /** Means of ratings in [1, 5] round to between 1.0 and 5.0. */
  lemma RoundedTenthsBounds(sum: int, n: nat)
    requires n > 0 && n * MIN_RATING <= sum <= n * MAX_RATING
    ensures 10 * MIN_RATING <= RoundedTenths(sum, n) <= 10 * MAX_RATING
  {
    var r := RoundedTenths(sum, n);
    RoundedTenthsIsHalfUp(sum, n);
    CancelLeft(2 * n, r, 51);
    CancelLeft(2 * n, 9, r);
  }

  lemma CancelLeft(n: int, a: int, b: int)
    requires n > 0 && n * a < n * b
    ensures a < b
  {
    assert n * b - n * a == n * (b - a);
  }

  lemma {:induction false} RatingSumBounds(reviews: map<Id, Review>, ids: seq<Id>)
    requires forall k :: k in ids ==> k in reviews && MIN_RATING <= reviews[k].rating <= MAX_RATING
    ensures |ids| * MIN_RATING <= RatingSum(reviews, ids) <= |ids| * MAX_RATING
  {
    if ids != [] {
      assert ids[0] in ids;
      RatingSumBounds(reviews, ids[1..]);
    }
  }

  /** The count is the number of reviews attached to the product. */
  lemma ReviewCountSpec(t: Tables, productId: Id)
    requires Consistent(t)
    ensures ReviewCount(t, productId) == |ReviewIdsOf(t.reviews, productId)|
  {
    var ids := ReviewsOf(t, productId);
    DecreasingCardinality(ids);
    assert (set k: Id | k in ids) == ReviewIdsOf(t.reviews, productId);
  }

  /** The average is 0 with no reviews; otherwise the mean rating rounded
      half up to tenths, which lies between 1.0 and 5.0. */
  lemma AverageRatingSpec(t: Tables, productId: Id)
    requires Consistent(t)
    ensures ReviewCount(t, productId) == 0 ==> AverageRating(t, productId) == 0
    ensures ReviewCount(t, productId) > 0 ==>
      var n := ReviewCount(t, productId);
      var sum := RatingSum(t.reviews, ReviewsOf(t, productId));
      var r := AverageRating(t, productId);
      && 2 * n * r - n <= 20 * sum < 2 * n * r + n
      && 10 * MIN_RATING <= r <= 10 * MAX_RATING
  {
    var ids := ReviewsOf(t, productId);
    if ids != [] {
      RatingSumBounds(t.reviews, ids);
      RoundedTenthsIsHalfUp(RatingSum(t.reviews, ids), |ids|);
      RoundedTenthsBounds(RatingSum(t.reviews, ids), |ids|);
    }
  }

  /** A failed update leaves the table as it was. */
  lemma FailuresChangeNothing(t: Tables, users: map<Id, User>, products: set<Id>,
                              id: Id, rating: int, content: string, userId: Id)
    ensures CreateReview(t, users, products, id, rating, content, userId).1.Err? ==>
      CreateReview(t, users, products, id, rating, content, userId).0 == t
    ensures DeleteReview(t, id, userId).1.Err? ==> DeleteReview(t, id, userId).0 == t
  {
  }

  /** A second review of the same product by the same user is refused
      before the rating is even looked at; an out-of-range rating is refused;
      success adds exactly one review with the given rating and content. */
  lemma CreateReviewEffect(t: Tables, users: map<Id, User>, products: set<Id>,
                           productId: Id, rating: int, content: string, userId: Id)
    requires Consistent(t)
    ensures var (t', r) := CreateReview(t, users, products, productId, rating, content, userId);
      && (Reviewed(t.reviews, productId, userId) ==> r == Err(AlreadyReviewed))
      && (!Reviewed(t.reviews, productId, userId) && !(MIN_RATING <= rating <= MAX_RATING) ==> r == Err(RatingOutOfRange))
      && (r.Ok? <==> !Reviewed(t.reviews, productId, userId) && MIN_RATING <= rating <= MAX_RATING &&
                     productId in products && userId in users)
      && (r.Ok? ==>
            && r.value !in t.reviews
            && t'.reviews.Keys == t.reviews.Keys + {r.value}
            && t'.reviews[r.value].rating == rating && t'.reviews[r.value].content == content
            && t'.reviews[r.value].productId == productId && t'.reviews[r.value].userId == userId
            && (forall k :: k in t.reviews ==> t'.reviews[k] == t.reviews[k]))
  {
  }

  /** Only the author deletes, and the delete removes exactly that review. */
  lemma DeleteReviewEffect(t: Tables, reviewId: Id, userId: Id)
    ensures var (t', r) := DeleteReview(t, reviewId, userId);
      && (reviewId !in t.reviews ==> r == Err(ReviewNotFound))
      && (reviewId in t.reviews && t.reviews[reviewId].userId != userId ==> r == Err(NotAuthor))
      && (r.Ok? <==> reviewId in t.reviews && t.reviews[reviewId].userId == userId)
      && (r.Ok? ==> t'.reviews.Keys == t.reviews.Keys - {reviewId} &&
                    forall k :: k in t'.reviews ==> t'.reviews[k] == t.reviews[k])
  {
  }

  lemma CreateReviewConsistent(t: Tables, users: map<Id, User>, products: set<Id>,
                               productId: Id, rating: int, content: string, userId: Id)
    requires Consistent(t)
    ensures Consistent(CreateReview(t, users, products, productId, rating, content, userId).0)
  {
  }

  lemma DeleteReviewConsistent(t: Tables, reviewId: Id, userId: Id)
    requires Consistent(t)
    ensures Consistent(DeleteReview(t, reviewId, userId).0)
  {
  }

  lemma IdsAfterInsert(reviews: map<Id, Review>, id: Id, review: Review, productId: Id)
    requires id !in reviews
    ensures ReviewIdsOf(reviews[id := review], productId) ==
      if review.productId == productId then ReviewIdsOf(reviews, productId) + {id} else ReviewIdsOf(reviews, productId)
  {
  }

  lemma IdsAfterRemove(reviews: map<Id, Review>, id: Id, productId: Id)
    requires id in reviews
    ensures ReviewIdsOf(reviews - {id}, productId) ==
      if reviews[id].productId == productId then ReviewIdsOf(reviews, productId) - {id} else ReviewIdsOf(reviews, productId)
    ensures reviews[id].productId == productId ==> id in ReviewIdsOf(reviews, productId)
  {
  }

  /** The aggregates are never stale: a review created for a product adds
      one to that product's count and changes no other product's count. */
  lemma CountAfterCreate(t: Tables, users: map<Id, User>, products: set<Id>,
                         productId: Id, rating: int, content: string, userId: Id, other: Id)
    requires Consistent(t)
    requires CreateReview(t, users, products, productId, rating, content, userId).1.Ok?
    ensures var t' := CreateReview(t, users, products, productId, rating, content, userId).0;
      && ReviewCount(t', productId) == ReviewCount(t, productId) + 1
      && (other != productId ==> ReviewCount(t', other) == ReviewCount(t, other))
  {
    var t' := CreateReview(t, users, products, productId, rating, content, userId).0;
    var id := t.nextReviewId;
    var review := Review(productId, userId, rating, content, t.clock);
    assert t'.reviews == t.reviews[id := review];
    CreateReviewConsistent(t, users, products, productId, rating, content, userId);
    ReviewCountSpec(t, productId);
    ReviewCountSpec(t', productId);
    ReviewCountSpec(t, other);
    ReviewCountSpec(t', other);
    IdsAfterInsert(t.reviews, id, review, productId);
    IdsAfterInsert(t.reviews, id, review, other);
  }

  /** Deleting a review takes one off its product's count and changes no
      other product's count. */
  lemma CountAfterDelete(t: Tables, reviewId: Id, userId: Id, other: Id)
    requires Consistent(t)
    requires DeleteReview(t, reviewId, userId).1.Ok?
    ensures var t' := DeleteReview(t, reviewId, userId).0;
      var p := t.reviews[reviewId].productId;
      && ReviewCount(t', p) == ReviewCount(t, p) - 1
      && (other != p ==> ReviewCount(t', other) == ReviewCount(t, other))
  {
    var t' := DeleteReview(t, reviewId, userId).0;
    var p := t.reviews[reviewId].productId;
    DeleteReviewConsistent(t, reviewId, userId);
    ReviewCountSpec(t, p);
    ReviewCountSpec(t', p);
    ReviewCountSpec(t, other);
    ReviewCountSpec(t', other);
    IdsAfterRemove(t.reviews, reviewId, p);
    IdsAfterRemove(t.reviews, reviewId, other);
  }
}

/** The service object: the review table is its field. */
module ReviewService {
  import opened Common
  import opened ReviewSpec

  class ReviewService {
    var reviews: map<Id, Review>
    var nextReviewId: nat
    var clock: nat

    function Current(): Tables
      reads this
    {
      Tables(reviews, nextReviewId, clock)
    }

    ghost predicate Valid()
      reads this
    {
      Consistent(Current())
    }

    constructor ()
      ensures Valid() && Current() == ReviewSpec.Empty
    {
      reviews, nextReviewId, clock := map[], 0, 0;
    }

    method CreateReview(users: map<Id, User>, products: set<Id>,
                        productId: Id, rating: int, content: string, userId: Id)
      returns (r: Result<Id, ReviewError>)
      requires Valid()
      modifies this
      ensures Valid()
      ensures (Current(), r) == ReviewSpec.CreateReview(old(Current()), users, products, productId, rating, content, userId)
    {
      CreateReviewConsistent(Current(), users, products, productId, rating, content, userId);
      if Reviewed(reviews, productId, userId) {
        return Err(AlreadyReviewed);
      }
      if rating < MIN_RATING || rating > MAX_RATING {
        return Err(RatingOutOfRange);
      }
      if productId !in products {
        return Err(ProductNotFound);
      }
      if userId !in users {
        return Err(UserNotFound);
      }
      var id := nextReviewId;
      reviews := reviews[id := Review(productId, userId, rating, content, clock)];
      nextReviewId, clock := id + 1, clock + 1;
      r := Ok(id);
    }

    method DeleteReview(reviewId: Id, userId: Id) returns (r: Result<(), ReviewError>)
      requires Valid()
      modifies this
      ensures Valid()
      ensures (Current(), r) == ReviewSpec.DeleteReview(old(Current()), reviewId, userId)
    {
      DeleteReviewConsistent(Current(), reviewId, userId);
      if reviewId !in reviews {
        return Err(ReviewNotFound);
      }
      if reviews[reviewId].userId != userId {
        return Err(NotAuthor);
      }
      reviews := reviews - {reviewId};
      r := Ok(());
    }
  }
}
