/**
 * The slash-command handlers `assignment_add`, `assignment_remove` and
 * `assignment_list`. Each handler loads the whole dict from the backing file,
 * works on it, and writes all of it back after a change. The state is the
 * file; the chat reply each handler sends is its result.
 */
module SlashCommands {
  import opened Wrappers
  import opened PyDict
  import opened AssignmentManager
  import opened Listing

  /** The "Assignment Added" embed (its fields) or the "Invalid Date Format" one. */
  datatype AddReply =
    | Added(name: string, record: Assignment, detailsShown: bool, stars: string)
    | InvalidDateFormat

  /** The "Assignment Removed" or "Assignment Not Found" embed. */
  datatype RemoveReply = Removed(name: string) | NotFound(name: string)

  /** "No Assignments", "No Upcoming Assignments", or the entries shown under "Your Assignments". */
  datatype ListReply = NoAssignments | AllCompleted | Showing(entries: seq<Entry>)

  class AssignmentBot {
    /** The contents of `data/assignments.json`. */
    var file: StoredFile

    ghost predicate Valid()
      reads this
    {
      WellFormed(file)
    }

    constructor (initial: StoredFile)
      requires WellFormed(initial)
      ensures Valid() && file == initial
    {
      file := initial;
    }

    /** `save_assignments`: the whole dict replaces the file's contents. */
    method SaveAssignments(data: Dict<string, Assignment>)
      requires UniqueKeys(data)
      modifies this
      ensures Valid() && file == Json(data)
      ensures LoadAssignments(file) == data
    {
      file := Json(data);
    }

    /**
     * `assignment_add`. The deadline text is parsed first; if it does not
     * parse, the file is neither read nor written. Otherwise the entry for
     * `name` is created or overwritten with priority clamped to [1, 5] and
     * details defaulting to "", and the dict is saved (so a corrupt file is
     * replaced). The reply's stars follow the priority as typed.
     */
    method AddAssignment(name: string, deadline: string, details: Option<string>, priority: int,
                         userId: int, now: int, parse: string -> Option<int>)
      returns (reply: AddReply)
      requires Valid()
      modifies this
      ensures Valid()
      ensures parse(deadline).None? ==> reply == InvalidDateFormat && file == old(file)
      ensures parse(deadline).Some? ==>
        var record := Assignment(parse(deadline).value, details.GetOr(""), ClampPriority(priority), userId, now);
        && file == Json(Set(LoadAssignments(old(file)), name, record))
        && reply == Added(name, record, details.Some? && details.value != "", PriorityStars(priority))
    {
      var parsed := parse(deadline);
      if parsed.None? {
        return InvalidDateFormat;
      }
      var assignments := LoadAssignments(file);
      var record := Assignment(parsed.value, details.GetOr(""), ClampPriority(priority), userId, now);
      assignments := Set(assignments, name, record);
      SaveAssignments(assignments);
      reply := Added(name, record, details.Some? && details.value != "", PriorityStars(priority));
    }

    /**
     * `assignment_remove`: a present name is deleted and the dict saved; an
     * absent name leaves the file as it was and is reported as not found.
     */
    method RemoveAssignment(name: string) returns (reply: RemoveReply)
      requires Valid()
      modifies this
      ensures Valid()
      ensures var d := LoadAssignments(old(file));
        && (name in Keys(d) ==> reply == Removed(name) && file == Json(Delete(d, name)))
        && (name !in Keys(d) ==> reply == NotFound(name) && file == old(file))
    {
      var assignments := LoadAssignments(file);
      if name in Keys(assignments) {
        assignments := Delete(assignments, name);
        SaveAssignments(assignments);
        reply := Removed(name);
      } else {
        reply := NotFound(name);
      }
    }

    /**
     * `assignment_list`: an empty store gives "No Assignments"; otherwise the
     * items are split by `deadline >= now` in iteration order, each part is
     * sorted, the past part is appended only for `showAll`, an empty result
     * gives "No Upcoming Assignments", and the rest is cut with `[:limit]`.
     */
    method ListAssignments(showAll: bool, limit: int, now: int) returns (reply: ListReply)
      requires Valid()
      ensures var d := LoadAssignments(file);
        && (d == [] ==> reply == NoAssignments)
        && (d != [] && Ordered(d, now, showAll) == [] ==> reply == AllCompleted)
        && (d != [] && Ordered(d, now, showAll) != [] ==> reply == Showing(Take(Ordered(d, now, showAll), limit)))
    {
      var assignments := LoadAssignments(file);
      if assignments == [] {
        return NoAssignments;
      }
      var upcoming, past := [], [];
      var i := 0;
      while i < |assignments|
        invariant 0 <= i <= |assignments|
        invariant upcoming == Upcoming(assignments[..i], now)
        invariant past == Past(assignments[..i], now)
      {
        assert assignments[..i + 1][..i] == assignments[..i];
        if assignments[i].1.deadline >= now {
          upcoming := upcoming + [assignments[i]];
        } else {
          past := past + [assignments[i]];
        }
        i := i + 1;
      }
      assert assignments[..i] == assignments;
      upcoming := SortByDeadline(upcoming);
      past := SortByDeadline(past);
      var toShow := upcoming + (if showAll then past else []);
      if toShow == [] {
        return AllCompleted;
      }
      reply := Showing(Take(toShow, limit));
    }

    /** Removing the same name twice: the second removal always reports not found. */
    method RemoveTwice(name: string) returns (first: RemoveReply, second: RemoveReply)
      requires Valid()
      modifies this
      ensures Valid()
      ensures first == if name in Keys(LoadAssignments(old(file))) then Removed(name) else NotFound(name)
      ensures second == NotFound(name)
    {
      first := RemoveAssignment(name);
      second := RemoveAssignment(name);
    }

    /**
     * Adding the same name twice with parseable deadlines: one entry remains,
     * holding the second record, where the first one put it.
     */
    method AddTwice(name: string, deadline1: string, deadline2: string, details: Option<string>,
                    priority: int, userId: int, now1: int, now2: int, parse: string -> Option<int>)
      returns (first: AddReply, second: AddReply)
      requires Valid()
      requires parse(deadline1).Some? && parse(deadline2).Some?
      modifies this
      ensures Valid()
      ensures var record := Assignment(parse(deadline2).value, details.GetOr(""), ClampPriority(priority), userId, now2);
        file == Json(Set(LoadAssignments(old(file)), name, record))
    {
      ghost var before := LoadAssignments(file);
      first := AddAssignment(name, deadline1, details, priority, userId, now1, parse);
      second := AddAssignment(name, deadline2, details, priority, userId, now2, parse);
      SetTwice(before, name,
               Assignment(parse(deadline1).value, details.GetOr(""), ClampPriority(priority), userId, now1),
               Assignment(parse(deadline2).value, details.GetOr(""), ClampPriority(priority), userId, now2));
    }
  }
}
