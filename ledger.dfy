/** The progress ledger: the `"courses"` part of the downloader's progress
    record, keyed by course slug, then by stringified module id, listing the
    stringified ids of completed lessons. This module holds the value-level
    rules; the downloader object that owns and updates the record is in
    module Downloader. */
module Ledger {
  import opened Text

  /** `{"title": ..., "completed_modules": [...], "completed_lessons": {module id: [lesson ids]}}` */
  datatype CourseEntry = CourseEntry(
    title: string,
    completedModules: seq<string>,
    completedLessons: map<string, seq<string>>)

  type Courses = map<string, CourseEntry>

  /** `_is_lesson_completed(slug, module_id, lesson_id)`: missing course,
      missing module and missing lesson all read as "not completed". */
  predicate Completed(courses: Courses, slug: string, moduleId: int, lessonId: int)
  {
    && slug in courses
    && Decimal(moduleId) in courses[slug].completedLessons
    && Decimal(lessonId) in courses[slug].completedLessons[Decimal(moduleId)]
  }

  /** The progress after `_mark_lesson_completed(slug, title, module_id,
      lesson_id)`: the course entry is created (with `title`) if missing,
      the module's list if missing, and the lesson id is appended unless
      already listed. */
  function Marked(courses: Courses, slug: string, title: string, moduleId: int, lessonId: int): Courses
  {
    var entry := if slug in courses then courses[slug] else CourseEntry(title, [], map[]);
    var m, l := Decimal(moduleId), Decimal(lessonId);
    var lessons := if m in entry.completedLessons then entry.completedLessons[m] else [];
    var lessons' := if l in lessons then lessons else lessons + [l];
    courses[slug := entry.(completedLessons := entry.completedLessons[m := lessons'])]
  }

  predicate NoDuplicates(xs: seq<string>)
  {
    forall i, j :: 0 <= i < j < |xs| ==> xs[i] != xs[j]
  }

  /** Every lesson list of every course is free of repeats. */
  predicate WellFormed(courses: Courses)
  {
    forall slug, m :: slug in courses && m in courses[slug].completedLessons ==>
      NoDuplicates(courses[slug].completedLessons[m])
  }

  /** After marking, the lesson reads as completed. */
  lemma MarkedCompletes(courses: Courses, slug: string, title: string, moduleId: int, lessonId: int)
    ensures Completed(Marked(courses, slug, title, moduleId, lessonId), slug, moduleId, lessonId)
  {
  }

  /** Marking adds exactly one lesson: what was completed stays completed,
      and nothing else becomes completed. */
  lemma MarkedExactly(courses: Courses, slug: string, title: string, moduleId: int, lessonId: int,
                      s: string, m: int, l: int)
    ensures Completed(Marked(courses, slug, title, moduleId, lessonId), s, m, l)
        <==> Completed(courses, s, m, l) || (s == slug && m == moduleId && l == lessonId)
  {
    var after := Marked(courses, slug, title, moduleId, lessonId);
    if Completed(after, s, m, l) && !Completed(courses, s, m, l) {
      assert s == slug;
      assert Decimal(m) == Decimal(moduleId) && Decimal(l) == Decimal(lessonId);
      DecimalInjective(m, moduleId);
      DecimalInjective(l, lessonId);
    }
  }

  /** Marking a lesson that is already completed changes nothing, so the
      "mark unless already marked" guard of the caller is only about saving. */
  lemma MarkedWhenCompleted(courses: Courses, slug: string, title: string, moduleId: int, lessonId: int)
    requires Completed(courses, slug, moduleId, lessonId)
    ensures Marked(courses, slug, title, moduleId, lessonId) == courses
  {
    var entry := courses[slug];
    assert entry.completedLessons[Decimal(moduleId) := entry.completedLessons[Decimal(moduleId)]] == entry.completedLessons;
  }

  /** Marking twice is marking once. */
  lemma MarkedIdempotent(courses: Courses, slug: string, title: string, title': string, moduleId: int, lessonId: int)
    ensures Marked(Marked(courses, slug, title, moduleId, lessonId), slug, title', moduleId, lessonId)
         == Marked(courses, slug, title, moduleId, lessonId)
  {
    MarkedCompletes(courses, slug, title, moduleId, lessonId);
    MarkedWhenCompleted(Marked(courses, slug, title, moduleId, lessonId), slug, title', moduleId, lessonId);
  }

  /** Lesson lists stay free of repeats. */
  lemma MarkedWellFormed(courses: Courses, slug: string, title: string, moduleId: int, lessonId: int)
    requires WellFormed(courses)
    ensures WellFormed(Marked(courses, slug, title, moduleId, lessonId))
  {
    var after := Marked(courses, slug, title, moduleId, lessonId);
    forall s, m | s in after && m in after[s].completedLessons
      ensures NoDuplicates(after[s].completedLessons[m])
    {
      if s == slug && m == Decimal(moduleId) {
        var entry := if slug in courses then courses[slug] else CourseEntry(title, [], map[]);
        var lessons := if m in entry.completedLessons then entry.completedLessons[m] else [];
        assert NoDuplicates(lessons);
      }
    }
  }

  /** The title is written only when the course entry is created; the
      `completed_modules` list is never touched; other courses, and other
      modules of the same course, are left as they were. */
  lemma MarkedLeavesRest(courses: Courses, slug: string, title: string, moduleId: int, lessonId: int)
    ensures var after := Marked(courses, slug, title, moduleId, lessonId);
      && after.Keys == courses.Keys + {slug}
      && after[slug].title == (if slug in courses then courses[slug].title else title)
      && after[slug].completedModules == (if slug in courses then courses[slug].completedModules else [])
      && (forall s :: s in courses && s != slug ==> after[s] == courses[s])
      && (forall m :: slug in courses && m in courses[slug].completedLessons && m != Decimal(moduleId) ==>
            m in after[slug].completedLessons && after[slug].completedLessons[m] == courses[slug].completedLessons[m])
  {
  }
}
