/**
 * The static career, course and internship catalogues and their lookups by id.
 *
 * The catalogues are parameters here: a career table is a dict from domain name to its
 * list of careers, the course and internship tables are lists. Only the fields the lookups
 * read or write are kept.
 */
module Catalog {
  import opened Wrappers
  import opened Dicts

  /** `domain` is absent until a lookup writes it into the stored record. */
  datatype Career = Career(id: string, name: string, domain: Option<string>)

  datatype Course = Course(id: string, name: string)

  datatype Internship = Internship(id: string, name: string, domain: string)

  /** `items[i]` is the first element whose id is `id`. */
  predicate IsFirstWithId<T>(items: seq<T>, idOf: T -> string, id: string, i: int) {
    0 <= i < |items| && idOf(items[i]) == id
    && forall k :: 0 <= k < i ==> idOf(items[k]) != id
  }

  /** A linear scan returning the first element with the given id, or `None`. */
  method FindById<T>(items: seq<T>, idOf: T -> string, id: string) returns (r: Option<T>)
    ensures r.None? <==> forall i :: 0 <= i < |items| ==> idOf(items[i]) != id
    ensures r.Some? ==> exists i :: IsFirstWithId(items, idOf, id, i) && items[i] == r.value
  {
    var i := 0;
    while i < |items|
      invariant 0 <= i <= |items|
      invariant forall k :: 0 <= k < i ==> idOf(items[k]) != id
    {
      if idOf(items[i]) == id {
        assert IsFirstWithId(items, idOf, id, i);
        return Some(items[i]);
      }
      i := i + 1;
    }
    return None;
  }

  /** `get_course_by_id`: the first course with that id, or `None`. */
  method GetCourseById(courses: seq<Course>, courseId: string) returns (r: Option<Course>)
    ensures r.None? <==> forall i :: 0 <= i < |courses| ==> courses[i].id != courseId
    ensures r.Some? ==> r.value in courses && r.value.id == courseId
    ensures r.Some? ==> exists i :: IsFirstWithId(courses, (c: Course) => c.id, courseId, i) && courses[i] == r.value
  {
    r := FindById(courses, (c: Course) => c.id, courseId);
  }

  /** `get_internship_by_id`: the first internship with that id, or `None`. */
  method GetInternshipById(internships: seq<Internship>, internshipId: string) returns (r: Option<Internship>)
    ensures r.None? <==> forall i :: 0 <= i < |internships| ==> internships[i].id != internshipId
    ensures r.Some? ==> r.value in internships && r.value.id == internshipId
    ensures r.Some? ==> exists i :: IsFirstWithId(internships, (n: Internship) => n.id, internshipId, i) && internships[i] == r.value
  {
    r := FindById(internships, (n: Internship) => n.id, internshipId);
  }

  /** Only one position can be the first with a given id. */
  lemma FirstWithIdUnique<T>(items: seq<T>, idOf: T -> string, id: string, i: int, j: int)
    requires IsFirstWithId(items, idOf, id, i) && IsFirstWithId(items, idOf, id, j)
    ensures i == j
  {
  }

  // ---------------------------------------------------------------------------------------------
  // Careers

  type CareerTable = Dict<string, seq<Career>>

  /** No career in any domain has this id. */
  predicate NoCareer(t: CareerTable, id: string) {
    forall d, j :: 0 <= d < |t| && 0 <= j < |t[d].1| ==> t[d].1[j].id != id
  }

  /** Career `j` of domain `d` has this id and is the first such in domain order, then list order. */
  predicate IsFirstCareer(t: CareerTable, id: string, d: int, j: int) {
    0 <= d < |t| && 0 <= j < |t[d].1| && t[d].1[j].id == id
    && (forall d', j' :: 0 <= d' < d && 0 <= j' < |t[d'].1| ==> t[d'].1[j'].id != id)
    && (forall j' :: 0 <= j' < j ==> t[d].1[j'].id != id)
  }

  /** Career `j` of domain `d` with its `domain` field set to the domain's name. */
  function Stamped(t: CareerTable, d: nat, j: nat): (c: Career)
    requires d < |t| && j < |t[d].1|
    ensures c.id == t[d].1[j].id && c.name == t[d].1[j].name && c.domain == Some(t[d].0)
  {
    t[d].1[j].(domain := Some(t[d].0))
  }

  /** The table after `career['domain'] = domain` on career `j` of domain `d`. */
  function Stamp(t: CareerTable, d: nat, j: nat): (r: CareerTable)
    requires d < |t| && j < |t[d].1|
    ensures |r| == |t| && Keys(r) == Keys(t)
    ensures forall d' :: 0 <= d' < |t| ==> |r[d'].1| == |t[d'].1|
    ensures forall d', j' :: 0 <= d' < |t| && 0 <= j' < |t[d'].1| ==>
              r[d'].1[j'] == if d' == d && j' == j then Stamped(t, d, j) else t[d'].1[j']
  {
    t[d := (t[d].0, t[d].1[j := Stamped(t, d, j)])]
  }

  /** Only one career can be the first with a given id. */
  lemma FirstCareerUnique(t: CareerTable, id: string, d: int, j: int, d2: int, j2: int)
    requires IsFirstCareer(t, id, d, j) && IsFirstCareer(t, id, d2, j2)
    ensures d == d2 && j == j2
  {
  }

  /**
   * Writing the domain into the found career does not change what a later lookup finds:
   * the same position is still the first match, it yields the same record, and writing
   * again leaves the table as it is.
   */
  lemma StampIdempotent(t: CareerTable, id: string, d: nat, j: nat)
    requires IsFirstCareer(t, id, d, j)
    ensures IsFirstCareer(Stamp(t, d, j), id, d, j)
    ensures Stamped(Stamp(t, d, j), d, j) == Stamped(t, d, j)
    ensures Stamp(Stamp(t, d, j), d, j) == Stamp(t, d, j)
  {
    var s := Stamp(t, d, j);
    assert s[d].0 == t[d].0 by {
      assert Keys(s)[d] == Keys(t)[d];
    }
    forall d', j' | 0 <= d' < d && 0 <= j' < |s[d'].1| ensures s[d'].1[j'].id != id {
      assert s[d'].1[j'] == t[d'].1[j'];
    }
    forall j' | 0 <= j' < j ensures s[d].1[j'].id != id {
      assert s[d].1[j'] == t[d].1[j'];
    }
    assert Stamped(s, d, j) == s[d].1[j];
    assert s[d].1[j := Stamped(s, d, j)] == s[d].1;
    assert s[d := (s[d].0, s[d].1)] == s;
  }

  /** The career catalogue, whose records a lookup annotates in place. */
  class CareerCatalog {
    var careers: CareerTable

    constructor (table: CareerTable)
      ensures careers == table
    {
      careers := table;
    }

    /**
     * `get_career_by_id`: scan the domains in order and each domain's careers in order; on the
     * first match, write the domain name into the stored record and return it.
     */
    method GetCareerById(careerId: string) returns (r: Option<Career>)
      modifies this
      ensures r.None? <==> NoCareer(old(careers), careerId)
      ensures r.None? ==> careers == old(careers)
      ensures r.Some? ==> exists d: nat, j: nat :: (IsFirstCareer(old(careers), careerId, d, j)
                && r.value == Stamped(old(careers), d, j) && careers == Stamp(old(careers), d, j))
    {
      var d := 0;
      while d < |careers|
        invariant 0 <= d <= |careers|
        invariant careers == old(careers)
        invariant forall d', j :: 0 <= d' < d && 0 <= j < |careers[d'].1| ==> careers[d'].1[j].id != careerId
      {
        var j := FindCareerIn(careers[d].1, careerId);
        if j < |careers[d].1| {
          assert IsFirstCareer(careers, careerId, d, j);
          var career := Stamped(careers, d, j);
          careers := Stamp(careers, d, j);
          return Some(career);
        }
        d := d + 1;
      }
      return None;
    }
  }

  /** The position of the first career with this id in one domain's list, or its length. */
  method FindCareerIn(cs: seq<Career>, id: string) returns (j: nat)
    ensures j <= |cs|
    ensures forall k :: 0 <= k < j ==> cs[k].id != id
    ensures j < |cs| ==> cs[j].id == id
  {
    j := 0;
    while j < |cs|
      invariant j <= |cs|
      invariant forall k :: 0 <= k < j ==> cs[k].id != id
    {
      if cs[j].id == id {
        return;
      }
      j := j + 1;
    }
  }
}
