/**
 * The User entity's role list and its half of the user-flashcard association. The Flashcard
 * entity appears here only through its owner field, which addFlashcard and removeFlashcard update.
 */
module Entities {
  import opened Wrappers
  import opened Seqs

  const RoleUser := "ROLE_USER"

  /** array_unique on a list: the first occurrence of every value, in order. */
  function Unique(xs: seq<string>): (r: seq<string>)
    ensures Distinct(r)
    ensures forall x :: x in r <==> x in xs
    ensures |r| <= |xs|
  {
    if |xs| == 0 then []
    else
      var rest := Unique(xs[..|xs| - 1]);
      assert forall x | x in xs[..|xs| - 1] :: x in xs;
      assert forall x | x in xs :: x in xs[..|xs| - 1] || x == xs[|xs| - 1];
      if xs[|xs| - 1] in rest then rest else rest + [xs[|xs| - 1]]
  }

  /** A list without repeats is its own array_unique. */
  lemma {:induction false} UniqueOfDistinct(xs: seq<string>)
    ensures Distinct(xs) ==> Unique(xs) == xs
  {
    if |xs| > 0 && Distinct(xs) {
      var init := xs[..|xs| - 1];
      PrefixOfDistinct(xs, |xs| - 1);
      UniqueOfDistinct(init);
      assert xs[|xs| - 1] !in init;
      assert init + [xs[|xs| - 1]] == xs;
    }
  }

  /**
   * getRoles: the stored roles with ROLE_USER appended, repeats dropped. ROLE_USER is always
   * granted, every stored role is kept, nothing else is added, and no role is listed twice.
   */
  function EffectiveRoles(stored: seq<string>): (r: seq<string>)
    ensures RoleUser in r
    ensures forall role | role in stored :: role in r
    ensures forall role | role in r :: role in stored || role == RoleUser
    ensures Distinct(r)
    ensures RoleUser !in stored && Distinct(stored) ==> r == stored + [RoleUser]
  {
    var xs := stored + [RoleUser];
    assert xs[..|xs| - 1] == stored;
    UniqueOfDistinct(stored);
    Unique(xs)
  }

  /** A stored role list that already holds ROLE_USER once and nothing twice comes back unchanged. */
  lemma {:induction false} EffectiveRolesKeepsCleanList(stored: seq<string>)
    requires RoleUser in stored && Distinct(stored)
    ensures EffectiveRoles(stored) == stored
  {
    var xs := stored + [RoleUser];
    assert xs[..|xs| - 1] == stored;
    UniqueOfDistinct(stored);
  }

  /** The only role of a user without stored roles is ROLE_USER. */
  lemma NoStoredRoles()
    ensures EffectiveRoles([]) == [RoleUser]
  {
    var r := EffectiveRoles([]);
    assert r[0] == RoleUser;
  }

  /** (string) $this->email: the address, or "" while none is set. */
  function Identifier(email: Option<string>): (id: string)
    ensures email.Some? ==> id == email.value
    ensures email.None? ==> id == ""
  {
    email.GetOr("")
  }

  /** The index of the first occurrence of x, as array_search finds it. */
  function FirstIndex<T(==)>(xs: seq<T>, x: T): (i: nat)
    requires x in xs
    ensures i < |xs| && xs[i] == x
    ensures forall k | 0 <= k < i :: xs[k] != x
  {
    if xs[0] == x then 0 else 1 + FirstIndex(xs[1..], x)
  }

  /** Collection::removeElement: the first occurrence of x taken out, the rest in order. */
  function RemoveFirst<T(==)>(xs: seq<T>, x: T): (r: seq<T>)
    ensures x !in xs ==> r == xs
    ensures x in xs ==> |r| == |xs| - 1 && multiset(r) == multiset(xs) - multiset{x}
  {
    if x !in xs then xs
    else
      var i := FirstIndex(xs, x);
      assert xs == xs[..i] + [x] + xs[i + 1..];
      xs[..i] + xs[i + 1..]
  }

  /** With no repeats, removing a card takes it out of the list altogether and keeps the rest. */
  lemma RemoveFirstOfDistinct<T>(xs: seq<T>, x: T)
    requires Distinct(xs) && x in xs
    ensures x !in RemoveFirst(xs, x) && Distinct(RemoveFirst(xs, x))
    ensures forall y | y in xs && y != x :: y in RemoveFirst(xs, x)
  {
    var r := RemoveFirst(xs, x);
    DistinctHasMultiplicityOne(xs);
    assert multiset(r)[x] == 0;
    forall y | y in xs && y != x ensures y in r {
      assert multiset(r)[y] == multiset(xs)[y];
    }
    assert AtMostOnce(r) by {
      forall y | y in r ensures multiset(r)[y] <= 1 {
        assert multiset(r)[y] <= multiset(xs)[y];
      }
    }
    MultiplicityOneIsDistinct(r);
  }

  class Flashcard {
    var user: User?

    constructor ()
      ensures user == null
    {
      user := null;
    }

    /** setUser. */
    method SetUser(owner: User?)
      modifies this
      ensures user == owner
    {
      user := owner;
    }
  }

  class User {
    var email: Option<string>
    var roles: seq<string>
    var flashcards: seq<Flashcard>

    constructor ()
      ensures email == None && roles == [] && flashcards == []
    {
      email := None;
      roles := [];
      flashcards := [];
    }

    /**
     * The association as Doctrine expects it from this side: every listed card once, each naming
     * this user as its owner.
     */
    predicate Owns()
      reads this, flashcards
    {
      Distinct(flashcards) && forall card | card in flashcards :: card.user == this
    }

    function GetUserIdentifier(): string
      reads this
    {
      Identifier(email)
    }

    function GetRoles(): seq<string>
      reads this
    {
      EffectiveRoles(roles)
    }

    method SetEmail(address: string)
      modifies this
      ensures email == Some(address) && GetUserIdentifier() == address
      ensures roles == old(roles) && flashcards == old(flashcards)
    {
      email := Some(address);
    }

    /** setRoles replaces the stored list; ROLE_USER is still granted afterwards. */
    method SetRoles(newRoles: seq<string>)
      modifies this
      ensures roles == newRoles && email == old(email) && flashcards == old(flashcards)
      ensures RoleUser in GetRoles() && forall role | role in newRoles :: role in GetRoles()
      ensures newRoles == [] ==> GetRoles() == [RoleUser]
    {
      roles := newRoles;
      if newRoles == [] {
        NoStoredRoles();
      }
    }

    /**
     * addFlashcard: a card already in the list changes nothing; any other card is appended and
     * given this user as owner.
     */
    method AddFlashcard(card: Flashcard)
      modifies this, card
      ensures card in old(flashcards) ==> flashcards == old(flashcards) && card.user == old(card.user)
      ensures card !in old(flashcards) ==> flashcards == old(flashcards) + [card] && card.user == this
      ensures email == old(email) && roles == old(roles)
      ensures old(Owns()) ==> Owns() && card in flashcards
    {
      if card !in flashcards {
        flashcards := flashcards + [card];
        card.SetUser(this);
        assert forall c | c in old(flashcards) :: c != card;
      }
    }

    /**
     * removeFlashcard: a card not in the list changes nothing; otherwise its first occurrence is
     * taken out and its owner cleared, but only if the owner is this user.
     */
    method RemoveFlashcard(card: Flashcard)
      modifies this, card
      ensures card !in old(flashcards) ==> flashcards == old(flashcards) && card.user == old(card.user)
      ensures card in old(flashcards) ==> flashcards == RemoveFirst(old(flashcards), card)
      ensures card in old(flashcards) ==> card.user == (if old(card.user) == this then null else old(card.user))
      ensures email == old(email) && roles == old(roles)
      ensures old(Owns()) ==> Owns() && card !in flashcards
      ensures old(Owns()) && card in old(flashcards) ==> card.user == null
    {
      if card in flashcards {
        ghost var before := flashcards;
        if Distinct(before) {
          RemoveFirstOfDistinct(before, card);
        }
        flashcards := RemoveFirst(flashcards, card);
        assert forall c | c in flashcards :: c in before by {
          forall c | c in flashcards ensures c in before {
            assert multiset(flashcards)[c] <= multiset(before)[c];
          }
        }
        if card.user == this {
          card.SetUser(null);
        }
      }
    }
  }
}
