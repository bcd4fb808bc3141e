/** Wishlists (WishlistService): a set of (user, product) pairs with
    guarded add and remove and two read-only queries. */
module WishlistSpec {
  import opened Common

  /** A wishlist row, identified by its owner and its product. */
  datatype Entry = Entry(userId: Id, productId: Id)

  /** The exceptions WishlistService throws, one per message. */
  datatype WishlistError =
    | UserNotFound      // "사용자를 찾을 수 없습니다."
    | ProductNotFound   // "상품을 찾을 수 없습니다."
    | AlreadyWished     // "이미 찜한 상품입니다."
    | NotWished         // "찜 목록에 없는 상품입니다."

  /** `addToWishlist(userId, productId)`: user, then product, then duplicate. */
  function Add(items: set<Entry>, users: map<Id, User>, products: set<Id>, userId: Id, productId: Id)
    : (r: (set<Entry>, Result<(), WishlistError>))
  {
    if userId !in users then (items, Err(UserNotFound))
    else if productId !in products then (items, Err(ProductNotFound))
    else if Entry(userId, productId) in items then (items, Err(AlreadyWished))
    else (items + {Entry(userId, productId)}, Ok(()))
  }

  /** `removeFromWishlist(userId, productId)`. */
  function Remove(items: set<Entry>, userId: Id, productId: Id): (r: (set<Entry>, Result<(), WishlistError>)) {
    if Entry(userId, productId) !in items then (items, Err(NotWished))
    else (items - {Entry(userId, productId)}, Ok(()))
  }

  /** `isInWishlist(userId, productId)`. */
  predicate IsInWishlist(items: set<Entry>, userId: Id, productId: Id) {
    Entry(userId, productId) in items
  }

  /** `getUserWishlist(userId)`: the products on the user's wishlist. */
  function UserWishlist(items: set<Entry>, userId: Id): (r: set<Id>)
    ensures forall p :: p in r <==> IsInWishlist(items, userId, p)
  {
    set e | e in items && e.userId == userId :: e.productId
  }

  // ---------------------------------------------------------------------
  // Properties.

  /** Adding fails for an unknown user or product and for a pair already
      present, leaving the set as it was; it succeeds exactly when none of
      these holds, and then afterwards the pair is
      in the wishlist and every other pair is as before. */
  lemma AddEffect(items: set<Entry>, users: map<Id, User>, products: set<Id>, userId: Id, productId: Id)
    ensures var (items', r) := Add(items, users, products, userId, productId);
      && (userId !in users ==> r == Err(UserNotFound))
      && (userId in users && productId !in products ==> r == Err(ProductNotFound))
      && (userId in users && productId in products && IsInWishlist(items, userId, productId) ==> r == Err(AlreadyWished))
      && (r.Ok? <==> userId in users && productId in products && !IsInWishlist(items, userId, productId))
      && (r.Err? ==> items' == items)
      && (r.Ok? ==> IsInWishlist(items', userId, productId) && !IsInWishlist(items, userId, productId))
      && (forall e :: e != Entry(userId, productId) ==> (e in items' <==> e in items))
  {
  }

  /** Removing fails for an absent pair; otherwise exactly that pair goes. */
  lemma RemoveEffect(items: set<Entry>, userId: Id, productId: Id)
    ensures var (items', r) := Remove(items, userId, productId);
      && (r.Err? <==> !IsInWishlist(items, userId, productId))
      && (r.Err? ==> items' == items)
      && (r.Ok? ==> !IsInWishlist(items', userId, productId))
      && (forall e :: e != Entry(userId, productId) ==> (e in items' <==> e in items))
  {
  }

  /** Adding then removing the same pair restores the original set. */
  lemma AddThenRemove(items: set<Entry>, users: map<Id, User>, products: set<Id>, userId: Id, productId: Id)
    requires Add(items, users, products, userId, productId).1.Ok?
    ensures var items' := Add(items, users, products, userId, productId).0;
      Remove(items', userId, productId) == (items, Ok(()))
  {
    var items' := Add(items, users, products, userId, productId).0;
    assert items' - {Entry(userId, productId)} == items;
  }

  /** Removing then adding back a pair of a known user and product restores
      the original set. */
  lemma RemoveThenAdd(items: set<Entry>, users: map<Id, User>, products: set<Id>, userId: Id, productId: Id)
    requires userId in users && productId in products
    requires Remove(items, userId, productId).1.Ok?
    ensures var items' := Remove(items, userId, productId).0;
      Add(items', users, products, userId, productId) == (items, Ok(()))
  {
    var items' := Remove(items, userId, productId).0;
    assert items' + {Entry(userId, productId)} == items;
  }

  /** One user's wishlist is not touched by another user's add or remove. */
  lemma OtherUsersUnaffected(items: set<Entry>, users: map<Id, User>, products: set<Id>,
                             userId: Id, productId: Id, other: Id)
    requires other != userId
    ensures UserWishlist(Add(items, users, products, userId, productId).0, other) == UserWishlist(items, other)
    ensures UserWishlist(Remove(items, userId, productId).0, other) == UserWishlist(items, other)
  {
    assert forall p :: IsInWishlist(Add(items, users, products, userId, productId).0, other, p) <==> IsInWishlist(items, other, p);
    assert forall p :: IsInWishlist(Remove(items, userId, productId).0, other, p) <==> IsInWishlist(items, other, p);
  }
}

/** The service object: the wishlist table is its field. */
module WishlistService {
  import opened Common
  import opened WishlistSpec

  class WishlistService {
    var items: set<Entry>

    constructor ()
      ensures items == {}
    {
      items := {};
    }

    method AddToWishlist(users: map<Id, User>, products: set<Id>, userId: Id, productId: Id)
      returns (r: Result<(), WishlistError>)
      modifies this
      ensures (items, r) == Add(old(items), users, products, userId, productId)
    {
      if userId !in users {
        return Err(UserNotFound);
      }
      if productId !in products {
        return Err(ProductNotFound);
      }
      if Entry(userId, productId) in items {
        return Err(AlreadyWished);
      }
      items := items + {Entry(userId, productId)};
      r := Ok(());
    }

    method RemoveFromWishlist(userId: Id, productId: Id) returns (r: Result<(), WishlistError>)
      modifies this
      ensures (items, r) == Remove(old(items), userId, productId)
    {
      if Entry(userId, productId) !in items {
        return Err(NotWished);
      }
      items := items - {Entry(userId, productId)};
      r := Ok(());
    }
  }
}
