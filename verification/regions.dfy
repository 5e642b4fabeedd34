/**
  Countries and provinces, and which of them a staff user may manage.

  Both levels share one shape (an id, a boundary that is not modelled, and a
  single managing user: the `managers` column is one foreign key, not a set);
  a province also names its parent country, which it must have. The scope
  rule: a superuser may manage every country; anybody else only the countries
  whose manager they are; a province is in scope when the user manages it or
  may manage its country.
*/
module Regions {

  import opened Queries

  type RegionId = nat

  /** The fields of a user that the scope rule reads. */
  datatype Account = Account(id: UserId, isSuperuser: bool)

  /** A top-level region. */
  datatype Country = Country(id: RegionId, manager: UserId)

  /** A region just below a country; `country` is a required foreign key. */
  datatype Province = Province(id: RegionId, manager: UserId, country: RegionId)

  function CountryManager(c: Country): UserId { c.manager }

  function ProvinceManager(p: Province): UserId { p.manager }

  /**
    `CountryQuerySet.allowed_for` over any table whose rows carry a manager
    (`manager` reads that column): the whole queryset for a superuser, else
    the rows the user manages.
  */
  function CountryAllowedFor<T(==)>(rows: seq<T>, manager: T -> UserId, user: Account): (r: seq<T>)
    ensures user.isSuperuser ==> r == rows
    ensures forall k :: 0 <= k < |r| ==> r[k] in rows
    ensures !user.isSuperuser ==> forall k :: 0 <= k < |r| ==> manager(r[k]) == user.id
    ensures forall k :: 0 <= k < |rows| && manager(rows[k]) == user.id ==> rows[k] in r
  {
    if user.isSuperuser then rows
    else Filter(rows, (c: T) => manager(c) == user.id)
  }

  /** The ids of a queryset, as `country__in=<queryset>` compares them. */
  function Ids(rows: seq<Country>): set<RegionId>
  {
    set c | c in rows :: c.id
  }

  /**
    `ProvinceQuerySet.allowed_for`: provinces the user manages, or whose
    country is among the countries the user is allowed for. `countries` is the
    whole country table the nested query runs over.
  */
  function ProvinceAllowedFor(provinces: seq<Province>, countries: seq<Country>, user: Account): (r: seq<Province>)
    ensures forall k :: 0 <= k < |r| ==> r[k] in provinces
  {
    var allowed := Ids(CountryAllowedFor(countries, CountryManager, user));
    Filter(provinces, (p: Province) => p.manager == user.id || p.country in allowed)
  }

  /** The country row with this id that the scope rule would accept for `user`. */
  ghost predicate ManagesCountry(countries: seq<Country>, id: RegionId, user: Account)
  {
    exists c :: c in countries && c.id == id && (user.isSuperuser || c.manager == user.id)
  }

  /**
    A province is in scope exactly when the user manages it, or its country is
    in the table and the user is a superuser or that country's manager.
  */
  lemma ProvinceAllowedForMembership(provinces: seq<Province>, countries: seq<Country>, user: Account, k: nat)
    requires k < |provinces|
    ensures var p := provinces[k];
            p in ProvinceAllowedFor(provinces, countries, user) <==>
              p.manager == user.id || ManagesCountry(countries, p.country, user)
  {
    var p := provinces[k];
    var allowedRows := CountryAllowedFor(countries, CountryManager, user);
    var allowed := Ids(allowedRows);
    var keep := (q: Province) => q.manager == user.id || q.country in allowed;
    var r := Filter(provinces, keep);
    assert r == ProvinceAllowedFor(provinces, countries, user);
    if ManagesCountry(countries, p.country, user) {
      var c :| c in countries && c.id == p.country && (user.isSuperuser || c.manager == user.id);
      var i :| 0 <= i < |countries| && countries[i] == c;
      assert c in allowedRows;
      assert p.country in allowed;
    }
    if p in r {
      var j :| 0 <= j < |r| && r[j] == p;
      assert keep(p);
      if p.manager != user.id {
        var c :| c in allowedRows && c.id == p.country;
        var i :| 0 <= i < |allowedRows| && allowedRows[i] == c;
        assert c in countries;
      }
    }
  }

  /** A province the user manages is in scope whoever manages its country. */
  lemma DirectManagerAllowed(provinces: seq<Province>, countries: seq<Country>, user: Account, k: nat)
    requires k < |provinces| && provinces[k].manager == user.id
    ensures provinces[k] in ProvinceAllowedFor(provinces, countries, user)
  {
    ProvinceAllowedForMembership(provinces, countries, user, k);
  }

  /** A superuser has in scope every province whose country is in the country table. */
  lemma SuperuserAllowedEveryListedCountry(provinces: seq<Province>, countries: seq<Country>, user: Account, k: nat)
    requires user.isSuperuser && k < |provinces|
    requires provinces[k].country in Ids(countries)
    ensures provinces[k] in ProvinceAllowedFor(provinces, countries, user)
  {
    var c :| c in countries && c.id == provinces[k].country;
    ProvinceAllowedForMembership(provinces, countries, user, k);
  }

  /**
    `Province.objects.allowed_for` as wired: the Province manager is built from
    `CountryQuerySet`, so provinces get the country rule, not the province rule.
  */
  function ProvinceObjectsAllowedFor(provinces: seq<Province>, user: Account): (r: seq<Province>)
    ensures user.isSuperuser ==> r == provinces
    ensures forall k :: 0 <= k < |r| ==> r[k] in provinces
    ensures !user.isSuperuser ==> forall k :: 0 <= k < |r| ==> r[k].manager == user.id
    ensures forall k :: 0 <= k < |provinces| && provinces[k].manager == user.id ==> provinces[k] in r
  {
    CountryAllowedFor(provinces, ProvinceManager, user)
  }

  /**
    The wiring drops the country managers: a province managed by someone else
    whose country the user manages is in scope by the province rule, but not
    through the Province manager as wired.
  */
  lemma WiredScopeDropsCountryManagers(provinces: seq<Province>, countries: seq<Country>, user: Account, k: nat, c: Country)
    requires !user.isSuperuser && k < |provinces|
    requires provinces[k].manager != user.id
    requires c in countries && c.manager == user.id && provinces[k].country == c.id
    ensures provinces[k] in ProvinceAllowedFor(provinces, countries, user)
    ensures provinces[k] !in ProvinceObjectsAllowedFor(provinces, user)
  {
    ProvinceAllowedForMembership(provinces, countries, user, k);
  }
}
