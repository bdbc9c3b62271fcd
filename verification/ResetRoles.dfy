/** Whom the clean-up deletes, by the names of the seeded roles. */
module ResetRoles {
  import opened AccessMatrix
  import opened ReferentialDb
  import opened ResetResult
  import opened Schema
  import Seeding

  /** The eight floor roles whose users are deleted.  Those of the batch and of the temporary
      storage are not among them. */
  predicate Erased(p: Post) {
    || p.InboundPost? || p.ReceivingPost? || p.SortingPost? || p.PutawayPost?
    || p.PickerPost? || p.PackerPost? || p.PackingPost? || p.ShippingPost?
  }

  lemma NumberDecides(p: Post, q: Post)
    ensures NameOf(p) == NameOf(q) <==> p == q
  {
    hide NameOf, Seeding.Names;
    NameAt(p);
    NameAt(q);
    NumbersDiffer(p, q);
    if NumberOf(p) < NumberOf(q) {
      Seeding.NamesDiffer(NumberOf(p), NumberOf(q));
    } else if NumberOf(q) < NumberOf(p) {
      Seeding.NamesDiffer(NumberOf(q), NumberOf(p));
    }
  }

  lemma NumbersDiffer(p: Post, q: Post)
    ensures NumberOf(p) == NumberOf(q) ==> p == q
  {
  }

  lemma OperationalAre(name: string)
    ensures name in OPERATIONAL_ROLES
            <==> || name == NameOf(InboundPost) || name == NameOf(ReceivingPost) || name == NameOf(SortingPost)
                 || name == NameOf(PutawayPost) || name == NameOf(PickerPost) || name == NameOf(PackerPost)
                 || name == NameOf(PackingPost) || name == NameOf(ShippingPost)
  {
  }

  lemma AdministrativeAre(name: string)
    ensures name in ADMIN_ROLES
            <==> || name == NameOf(SuperAdministrator) || name == NameOf(Administrator) || name == NameOf(Manager)
                 || name == NameOf(ViewerPost)
  {
  }

  /** Of the seeded roles just these eight are operational, and no other name is. */
  lemma OperationalNames(name: string)
    ensures name in OPERATIONAL_ROLES <==> exists p :: Erased(p) && NameOf(p) == name
  {
    hide NameOf, OPERATIONAL_ROLES;
    OperationalAre(name);
  }

  lemma OperationalPosts(p: Post)
    ensures NameOf(p) in OPERATIONAL_ROLES <==> Erased(p)
    ensures NameOf(p) in ADMIN_ROLES <==> Supervises(p) || p.ViewerPost?
  {
    hide NameOf, OPERATIONAL_ROLES, ADMIN_ROLES;
    OperationalAre(NameOf(p));
    AdministrativeAre(NameOf(p));
    forall q ensures NameOf(p) == NameOf(q) <==> p == q {
      NumberDecides(p, q);
    }
  }

  /** No role is operational and administrative. */
  lemma RolesApart()
    ensures OPERATIONAL_ROLES !! ADMIN_ROLES
  {
    hide NameOf, OPERATIONAL_ROLES, ADMIN_ROLES;
    forall name | name in OPERATIONAL_ROLES ensures name !in ADMIN_ROLES {
      OperationalNames(name);
      var p :| Erased(p) && NameOf(p) == name;
      OperationalPosts(p);
    }
  }

  /** The user has a role with just this name. */
  ghost predicate Holds(db: Db, names: RoleNames, user: Id, p: Post) {
    HasRole(db, names, user, {NameOf(p)})
  }

  lemma SomeRole(db: Db, names: RoleNames, user: Id)
    ensures HasRole(db, names, user, OPERATIONAL_ROLES) <==> exists p :: Erased(p) && Holds(db, names, user, p)
  {
    hide NameOf, OPERATIONAL_ROLES;
    if HasRole(db, names, user, OPERATIONAL_ROLES) {
      var ur :| Gives(db, names, ur, user, OPERATIONAL_ROLES);
      var name := names[db.refs[Link(Cascading(UserRolesRole), ur.id)]];
      OperationalNames(name);
      var p :| Erased(p) && NameOf(p) == name;
      assert Gives(db, names, ur, user, {NameOf(p)});
      assert Holds(db, names, user, p);
    }
    forall p | Erased(p) && Holds(db, names, user, p) ensures HasRole(db, names, user, OPERATIONAL_ROLES) {
      var ur :| Gives(db, names, ur, user, {NameOf(p)});
      OperationalPosts(p);
      assert Gives(db, names, ur, user, OPERATIONAL_ROLES);
    }
  }

  /** A user with any of the eight roles is deleted; a user with none of them is left. */
  lemma UsersLeftByRole(db: Db, names: RoleNames, logs: set<Id>, user: Id)
    requires Integrity(db)
    ensures IsUser(AfterReset(db, names, logs), user)
            <==> IsUser(db, user) && forall p :: Erased(p) ==> !Holds(db, names, user, p)
  {
    hide Integrity, IsUser, Holds, HasRole, OPERATIONAL_ROLES;
    UsersLeft(db, names, logs, user);
    SomeRole(db, names, user);
  }

  /** In particular the users of the two other floor roles stay, unless they have one of the
      eight as well, although the seed makes them floor roles, too. */
  lemma BatchWorkersStay(db: Db, names: RoleNames, logs: set<Id>, user: Id)
    requires Integrity(db) && IsUser(db, user)
    requires forall p :: Holds(db, names, user, p) ==> p.BatchPost? || p.TempStoragePost?
    ensures IsUser(AfterReset(db, names, logs), user)
  {
    hide Integrity, IsUser, Holds;
    UsersLeftByRole(db, names, logs, user);
  }
}
