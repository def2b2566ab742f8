/** datatype_constants.py: the names the planner gives to its collections. */
module CourseTypes {
  import opened TimeModel

  /** A complete timetable: every chosen lecture slot. */
  type Lectures = seq<LectureSlot>

  /** The slots of one course that must be taken together. */
  type LecturePackage = seq<LectureSlot>

  /** One package per course. */
  type CourseSelection = seq<LecturePackage>

  /** A penalty value and the lectures it was computed for. */
  type RatedCourseSelection = (int, Lectures)

  /** The packages of each course in course order. */
  function ValuesIn(names: seq<string>, options: map<string, seq<LecturePackage>>): (vs: seq<seq<LecturePackage>>)
    requires forall n :: n in names ==> n in options
    ensures |vs| == |names|
    ensures forall i :: 0 <= i < |names| ==> vs[i] == options[names[i]]
    decreases |names|
  {
    if names == [] then [] else ValuesIn(names[..|names| - 1], options) + [options[names[|names| - 1]]]
  }

  /** CourseOptions: a dictionary from course name to the list of that course's packages.
      A Python dictionary iterates in insertion order, kept here as the sequence names. */
  class CourseOptions {
    var names: seq<string>
    var options: map<string, seq<LecturePackage>>

    ghost predicate Valid()
      reads this
    {
      (forall i, j :: 0 <= i < j < |names| ==> names[i] != names[j])
      && (forall n :: n in options <==> n in names)
    }

    /** courses.values(), in insertion order. */
    function Values(): (vs: seq<seq<LecturePackage>>)
      reads this
      requires Valid()
      ensures |vs| == |names|
      ensures forall i :: 0 <= i < |names| ==> vs[i] == options[names[i]]
    {
      ValuesIn(names, options)
    }

    /** An empty dictionary. */
    constructor ()
      ensures Valid() && names == [] && options == map[]
    {
      names := [];
      options := map[];
    }

    /** courses[name].append(package): the package goes to the end of name's list; nothing
        else changes. */
    method AppendPackage(name: string, package: LecturePackage)
      requires Valid() && name in options
      modifies this
      ensures Valid()
      ensures names == old(names)
      ensures options == old(options)[name := old(options)[name] + [package]]
    {
      options := options[name := options[name] + [package]];
    }
  }
}
