# CampusFlow REST simulation: a Dafny model

CampusFlow's front end talks to an in-memory "REST simulation". Each API
class owns a module-level array and an `id` counter. Each method resolves
with a `{status, data}` response or rejects with `{status, message}` after a
fixed latency. This project models that layer:

- the entity stores: courses, classrooms, programs (two copies), users (two
  copies) and schedules;
- the two relation stores: course–program and course–classroom;
- the two joining routes of `CourseAPI`: `getFullCourses` and
  `createFullCourse`;
- the course form's `FormHelper`, which diffs a course's program relations
  and schedules against what the form holds.

Every API call is a pure function from the store's state to a pair
(response, next state). A store is `KeyedStore.Store(items, last)`: `items`
is the array and `last` the counter, and `genID()` hands out `last + 1`.
Responses are `ApiResult.Result` (`Ok(status, value)` or
`Err(status, message)`). The status codes and messages are the source's. A
successful DELETE resolves with `{status: 204, message}` and no data; its
`value` here is that message, such as "Course deleted successfully".
Multi-call routines report `Done` or the first rejection (`Failed`) together
with the state reached so far, because the awaited calls before a rejection
have already taken effect.

The modules follow the source files:

| module | models |
|---|---|
| `ApiResult` | response shapes, `Option` |
| `Seqs` | `find`, `findIndex`, `filter`, `splice(i, 1)` on sequences |
| `KeyedStore` | the create / find / update / delete pattern every entity store repeats |
| `Courses`, `Classrooms`, `Programs`, `ProgramVariant`, `Users`, `LegacyUsers` | course-api.ts (CRUD part), classrooms-api.ts, programs-api.ts, program-api.ts, users-api.ts, user-api.ts |
| `TimeOfDay`, `Schedules` | schedules-api.ts: the `HH:mm` check, JavaScript string order, the overlap test |
| `RelationStore`, `CoursePrograms`, `CourseClassrooms` | course-program-api.ts, course-classroom-api.ts |
| `FormHelper` | form-helper.ts: `syncRelatedPrograms`, `syncRelatedSchedules` |
| `FullCourses` | course-api.ts: `getFullCourses`, `createFullCourse` |

## Model

| member | source | states |
|---|---|---|
| KeyedStore.Create | src/services/api/programs-api.ts:71-86 | rejects with 409 exactly when some stored record is taken, leaving the store alone; otherwise stores the record under `last + 1` at the end and advances the counter |
| KeyedStore.Find | src/services/api/programs-api.ts:98-109 | succeeds exactly when some record matches, and then returns the first match; otherwise 404 |
| KeyedStore.Update | src/services/api/programs-api.ts:126-143 | 404 and no change when nothing matches; otherwise the first match is replaced by its merge with the patch, nothing else changes |
| KeyedStore.Delete | src/services/api/programs-api.ts:146-160 | 404 and no change when nothing matches; otherwise 204 with the route's success message and exactly the first match removed, order and counter kept |
| KeyedStore.CreateIssuesFreshKey | src/services/api/programs-api.ts:16-19 | while every stored id is at most the counter, a create keeps that so and the new id differs from every stored one |
| KeyedStore.CreateKeepsKeysDistinct | src/services/api/programs-api.ts:80-81 | a create keeps ids pairwise distinct when they were and were all issued by the counter |
| KeyedStore.CreateKeepsFieldUnique | src/services/api/programs-api.ts:74-79 | when the conflict test compares a field, a create keeps that field unique |
| KeyedStore.RemoveAtKeeps | src/services/api/programs-api.ts:153 | `splice(i, 1)` keeps ids issued and any field unique |
| KeyedStore.DeleteKeeps | src/services/api/programs-api.ts:146-160 | a delete keeps ids issued and fields unique, and shrinks the store by one exactly when it succeeds |
| KeyedStore.UpdateKeepsKeys | src/services/api/programs-api.ts:132-137 | an update whose merge keeps the id keeps ids issued and distinct and the store's size |
| KeyedStore.CreateThenFind | src/services/api/programs-api.ts:71-109 | a record just created is found under its new id |
| Courses.CreateCourse | src/services/api/course-api.ts:111-126 | 409 "This course already exists" and no change exactly when the name is taken; otherwise 201 with id `last + 1`, appended |
| Courses.GetCoursesById | src/services/api/course-api.ts:138-149 | found exactly when some course has the id; the first such course; else 404 |
| Courses.GetCourseByName | src/services/api/course-api.ts:152-163 | found exactly when some course has the name; the first such course; else 404 |
| Courses.UpdateCourse | src/services/api/course-api.ts:166-181 | 404 and no change when the id is absent; else the first holder is shallow-merged with the patch, all else unchanged |
| Courses.DeleteCourse | src/services/api/course-api.ts:184-196 | 404 and no change when the id is absent; else 204 "Course deleted successfully" and only the first holder removed |
| Courses.CreateKeepsNamesUnique | src/services/api/course-api.ts:111-126 | course names stay unique under create |
| Courses.FirstCreateCollidesWithSeed | src/services/api/course-api.ts:36-93 | the seed hard-codes ids 1..10 with the counter at 0, so the first create issues id 1 again; ids are no longer distinct and lookup of id 1 still returns the seed course |
| Classrooms.CreateClassroom | src/services/api/classrooms-api.ts:51-68 | 409 "This classroom already exists" and no change exactly when the name is taken; otherwise 201 with the next id, appended |
| Classrooms.GetClassroomById | src/services/api/classrooms-api.ts:80-93 | found exactly when some classroom has the id; the first one; else 404 |
| Classrooms.GetClassroomByName | src/services/api/classrooms-api.ts:96-109 | found exactly when some classroom has the name; the first one; else 404 |
| Classrooms.UpdateClassroom | src/services/api/classrooms-api.ts:112-129 | 404 and no change when absent; else only the first holder is merged |
| Classrooms.DeleteClassroom | src/services/api/classrooms-api.ts:132-146 | 404 and no change when absent; else 204 "Classroom deleted successfully" and only the first holder removed |
| Classrooms.CreateKeepsNamesUnique | src/services/api/classrooms-api.ts:51-68 | classroom names stay unique under create |
| Classrooms.FirstCreateCollidesWithSeed | src/services/api/classrooms-api.ts:16-33 | the seed hard-codes ids 1..10 with the counter at 0: the first create reuses id 1 and lookup of 1 still finds "Science Lab" |
| Programs.CreateProgram | src/services/api/programs-api.ts:71-86 | 409 "Name already taken" and no change exactly when the name is taken; otherwise 201 with the next id, appended |
| Programs.GetProgramById | src/services/api/programs-api.ts:98-109 | found exactly when some program has the id; the first one; else 404 |
| Programs.GetProgramByName | src/services/api/programs-api.ts:112-123 | found exactly when some program has the name; the first one; else 404 |
| Programs.UpdateProgram | src/services/api/programs-api.ts:126-143 | 404 and no change when absent; else only the first holder merged |
| Programs.DeleteProgram | src/services/api/programs-api.ts:146-160 | 404 and no change when absent; else 204 "Program deleted successfully" and only the first holder removed |
| Programs.SeedValid | src/services/api/programs-api.ts:16-53 | the seed takes its ids from the counter: ids issued, ids distinct, names distinct |
| Programs.CreateKeepsValid | src/services/api/programs-api.ts:71-86 | create keeps ids issued and distinct and names unique, and the new id is fresh |
| Programs.DeleteKeepsValid | src/services/api/programs-api.ts:146-160 | delete keeps the same invariant |
| Programs.UpdateKeepsIds | src/services/api/programs-api.ts:126-143 | an update without an id field keeps ids issued and distinct |
| Programs.UpdateCanDuplicateName | src/services/api/programs-api.ts:126-143 | update does not check names: renaming program 2 to "Software Engineering" succeeds and duplicates a name |
| Programs.CreateThenGet | src/services/api/programs-api.ts:71-109 | on a valid store, a created program is returned by `getProgramById` of the new id |
| Programs.GetByNameUnique | src/services/api/programs-api.ts:112-123 | with unique names, lookup by a stored program's name returns exactly that program |
| ProgramVariant.CreateProgramV | src/services/api/program-api.ts:71-86 | the second programs store behaves like the first on create: 409 when the name is taken, else the next id appended |
| ProgramVariant.GetProgramByIdV | src/services/api/program-api.ts:98-109 | same lookup by id on the second store |
| ProgramVariant.GetProgramByNameV | src/services/api/program-api.ts:112-123 | same lookup by name on the second store |
| ProgramVariant.UpdateProgramV | src/services/api/program-api.ts:126-143 | 404 and no change when the id is absent; else 200 with the first holder shallow-merged with the patch, which replaces it in place; every other position and the counter are untouched |
| ProgramVariant.DeleteProgramV | src/services/api/program-api.ts:146-160 | 404 and no change when the id is absent; else 204 "Program deleted successfully", exactly the first holder is cut out, order and counter kept |
| ProgramVariant.VariantIdsFresh | src/services/api/program-api.ts:15-53 | the second store's seed is valid and create and delete keep it valid with fresh ids |
| Users.CreateUser | src/services/api/users-api.ts:68-81 | 409 "Email already taken" and no change exactly when the email is taken; otherwise 201 with the next id |
| Users.GetUserById | src/services/api/users-api.ts:93-104 | found exactly when some user has the id; the first one; else 404 |
| Users.GetUserByEmail | src/services/api/users-api.ts:107-118 | found exactly when some user has the email; the first one; else 404 |
| Users.UpdateUser | src/services/api/users-api.ts:121-136 | 404 and no change when absent; else only the first holder merged |
| Users.DeleteUser | src/services/api/users-api.ts:139-151 | 404 and no change when absent; else 204 "User deleted successfully" and only the first holder removed |
| Users.SeedValid | src/services/api/users-api.ts:19-50 | the seed has issued, distinct ids and distinct emails |
| Users.CreateDeleteKeepValid | src/services/api/users-api.ts:68-151 | create and delete keep ids issued and distinct and emails unique; a created id is fresh |
| Users.UpdateCanDuplicateEmail | src/services/api/users-api.ts:121-136 | update does not check emails: giving user 1 user 2's email succeeds and duplicates it |
| Users.GetByEmailUnique | src/services/api/users-api.ts:107-118 | with unique emails, lookup by a stored user's email returns exactly that user |
| LegacyUsers.CreateUser | src/services/api/user-api.ts:52-65 | the older user store: 409 when the email is taken, else 201 with the next id |
| LegacyUsers.GetUserById | src/services/api/user-api.ts:77-88 | found exactly when some user has the id; the first one; else 404 |
| LegacyUsers.GetUserByEmail | src/services/api/user-api.ts:91-102 | found exactly when some user has the email; the first one; else 404 |
| LegacyUsers.UpdateUser | src/services/api/user-api.ts:105-120 | 404 and no change when absent; else only the first holder merged |
| LegacyUsers.DeleteUser | src/services/api/user-api.ts:123-135 | 404 and no change when absent; else 204 "User deleted successfully" and only the first holder removed |
| LegacyUsers.SeedValid | src/services/api/user-api.ts:4-45 | the seed has issued, distinct ids and distinct emails |
| LegacyUsers.CreateKeepsValid | src/services/api/user-api.ts:52-65 | create keeps that invariant and issues a fresh id |
| LegacyUsers.DeleteKeepsValid | src/services/api/user-api.ts:123-135 | delete keeps that invariant |
| TimeOfDay.TwoDigits | src/services/api/schedules-api.ts:21 | renders 0..99 as two digits whose value is the number |
| TimeOfDay.Format | src/services/api/schedules-api.ts:21 | renders an hour and minute as a five-character string |
| TimeOfDay.FormatIsValid | src/services/api/schedules-api.ts:20-23 | every rendered time passes `isValidTimeFormat` and reads back as the same hour and minute |
| TimeOfDay.ValidIsFormatted | src/services/api/schedules-api.ts:20-23 | every string that passes `isValidTimeFormat` is a time of day (hours < 24, minutes < 60) and is its own rendering: the check and the rendering are inverse |
| TimeOfDay.StrLessIrreflexive | src/services/api/schedules-api.ts:107-108 | JavaScript `<` on strings is irreflexive |
| TimeOfDay.StrLessOnTimes | src/services/api/schedules-api.ts:107-108 | on valid times, string `<` compares the four digits in order |
| TimeOfDay.StrLessIsTimeOrder | src/services/api/schedules-api.ts:107-108 | on valid times, string `<` is exactly "earlier in the day" |
| TimeOfDay.StrLeGeAreTimeOrder | src/services/api/schedules-api.ts:107-108 | on valid times, `<=` and `>=` are the time-of-day order |
| TimeOfDay.EqualStringsCompareBothWays | src/services/api/schedules-api.ts:107-108 | a string is both `<=` and `>=` itself |
| Schedules.CreateSchedule | src/services/api/schedules-api.ts:88-120 | 400 first when either time is malformed; on valid times 409 exactly when some stored meeting conflicts; otherwise 201 with the next id, appended |
| Schedules.GetScheduleById | src/services/api/schedules-api.ts:132-145 | found exactly when some meeting has the id; the first one; else 404 |
| Schedules.UpdateSchedule | src/services/api/schedules-api.ts:148-165 | 404 and no change when absent; else only the first holder merged, with no format or overlap check |
| Schedules.DeleteSchedule | src/services/api/schedules-api.ts:168-182 | 404 and no change when absent; else 204 "Schedule deleted successfully" and only the first holder removed |
| Schedules.ConflictIsOverlap | src/services/api/schedules-api.ts:102-110 | on valid times the string test is half-open interval overlap on minutes of the day, same course and day |
| Schedules.ConflictScope | src/services/api/schedules-api.ts:102-110 | other courses and other days never conflict, back-to-back meetings never conflict, and the classroom plays no part |
| Schedules.InvertedIntervalAdmitted | src/services/api/schedules-api.ts:94-117 | an end before the start is not rejected: 10:00–09:00 on a free day is created |
| Schedules.UpdateSkipsOverlapCheck | src/services/api/schedules-api.ts:148-165 | moving seed meeting 2 onto Monday 09:00 succeeds and leaves two conflicting meetings |
| Schedules.SeedIdsNotFresh | src/services/api/schedules-api.ts:35-70 | the as-written seed (ids 1..4, counter 0) breaks "ids issued and distinct"; the seed with the counter at 4 keeps it |
| Schedules.CreateKeepsIdsFresh | src/services/api/schedules-api.ts:111-117 | create keeps ids issued and distinct |
| Schedules.UpdateKeepsIdsFresh | src/services/api/schedules-api.ts:148-165 | an update without an id field keeps ids issued and distinct |
| Schedules.DeleteKeepsIdsFresh | src/services/api/schedules-api.ts:168-182 | delete keeps ids issued and distinct |
| RelationStore.Add | src/services/api/course-program-api.ts:37-62 | 409 and no change exactly when the pair is stored; else the pair is appended |
| Seqs.FilterInOrder | src/services/api/course-program-api.ts:70-72 | `Array.prototype.filter` keeps the matching elements, each once, in their order: the element at position `k` lands at the count of matches before `k` |
| Seqs.KeepsInOrderUnique | src/services/api/course-program-api.ts:70-72 | that order-and-count description has exactly one solution, so it fixes the filter's result completely |
| RelationStore.ByCourse | src/services/api/course-program-api.ts:70-72 | holds exactly the stored rows of the course, each stored row once, in store order |
| RelationStore.ByOther | src/services/api/course-program-api.ts:84-86 | holds exactly the stored rows of the other id, each stored row once, in store order |
| RelationStore.Remove | src/services/api/course-program-api.ts:93-117 | 404 and no change when the pair is absent; else 204 with the route's success message and only its first occurrence removed |
| RelationStore.FiltersKeepOrder | src/services/api/course-program-api.ts:65-90 | appending a row extends each filtered view by that row when it matches, in store order |
| RelationStore.AddKeepsDistinct | src/services/api/course-program-api.ts:37-62 | add never creates a duplicate pair |
| RelationStore.IndexIsFirst | src/services/api/course-program-api.ts:99-102 | the first index holding the pair is the one `findIndex` returns |
| RelationStore.RemoveUnderDistinct | src/services/api/course-program-api.ts:93-117 | without duplicates, remove succeeds exactly when the pair is stored, and afterwards the rows are the old rows minus that pair |
| RelationStore.AddThenRemove | src/services/api/course-program-api.ts:37-117 | adding a new pair and then removing it restores the rows |
| RelationStore.RemoveKeepsOtherCourses | src/services/api/course-program-api.ts:93-117 | removing a pair of course `c` leaves every other course's rows as they were |
| RelationStore.AddKeepsOtherCourses | src/services/api/course-program-api.ts:37-62 | adding a pair of course `c` leaves every other course's rows as they were |
| CoursePrograms.AddRelation | src/services/api/course-program-api.ts:37-62 | 409 "This course is already assigned to this program" and no change when the pair is stored; else 201 and the pair appended |
| CoursePrograms.GetRelsByCourseID | src/services/api/course-program-api.ts:65-76 | 200 with exactly the course's rows, in store order and with their multiplicity |
| CoursePrograms.GetRelsByProgramID | src/services/api/course-program-api.ts:79-90 | 200 with exactly the program's rows, in store order and with their multiplicity |
| CoursePrograms.RemoveRelation | src/services/api/course-program-api.ts:93-117 | 404 when the pair is absent; else 204 "Course-Program relation removed successfully" and its first occurrence removed |
| CoursePrograms.NoDuplicatePairs | src/services/api/course-program-api.ts:14-62 | the seed has no duplicate pairs and add keeps it so |
| CoursePrograms.RemovedPairIsGone | src/services/api/course-program-api.ts:93-117 | without duplicates, remove succeeds exactly when the pair is stored and the pair is gone afterwards |
| CoursePrograms.AddThenRemoveRestores | src/services/api/course-program-api.ts:37-117 | remove undoes add of a new pair |
| CourseClassrooms.AddClassroomToCourse | src/services/api/course-classroom-api.ts:44-70 | 409 and no change when the pair is stored; else 201 and the pair appended |
| CourseClassrooms.GetClassroomsByCourse | src/services/api/course-classroom-api.ts:73-84 | 200 with exactly the course's rows, in store order and with their multiplicity |
| CourseClassrooms.GetCoursesByClassroom | src/services/api/course-classroom-api.ts:87-98 | 200 with exactly the classroom's rows, in store order and with their multiplicity |
| CourseClassrooms.RemoveClassroomFromCourse | src/services/api/course-classroom-api.ts:101-123 | 404 when the pair is absent; else 204 "Classroom removed from course successfully" and its first occurrence removed |
| CourseClassrooms.NoDuplicatePairs | src/services/api/course-classroom-api.ts:14-70 | the seed has no duplicate pairs and add keeps it so |
| CourseClassrooms.RemovedPairIsGone | src/services/api/course-classroom-api.ts:101-123 | without duplicates, remove succeeds exactly when the pair is stored and the pair is gone afterwards |
| CourseClassrooms.AddThenRemoveRestores | src/services/api/course-classroom-api.ts:44-123 | remove undoes add of a new pair |
| FormHelper.LinksTo | src/ressources/courses/course-form/form-helper.ts:64-66 | the rows the add loop writes: one per program, in order, for course `c` |
| FormHelper.AddRelations | src/ressources/courses/course-form/form-helper.ts:64-66 | the add loop stops at the first 409; when it runs to the end it has appended exactly one row per program |
| FormHelper.AddRelationsFacts | src/ressources/courses/course-form/form-helper.ts:64-66 | the add loop leaves other courses' rows alone, creates no duplicate, and runs to the end when none of the pairs is stored and the programs have distinct ids |
| FormHelper.RemoveRelations | src/ressources/courses/course-form/form-helper.ts:77-82 | the remove loop stops at the first 404; without duplicates, when it runs to the end the rows are the old rows minus the removed ones, and it does run to the end when every pair is stored |
| FormHelper.RemoveRelationsKeepOthers | src/ressources/courses/course-form/form-helper.ts:77-82 | removing rows of course `c` leaves every other course's rows as they were |
| FormHelper.SyncRelatedPrograms | src/ressources/courses/course-form/form-helper.ts:48-86 | only 409 or 404 can stop the sync; other courses' rows never change; no duplicate appears; without duplicates and with distinct desired ids the sync runs to the end |
| FormHelper.ProgramDiff | src/ressources/courses/course-form/form-helper.ts:58-74 | `toAdd` holds exactly the desired programs with no row for the course; `toRemove` holds exactly the course's rows naming no desired program |
| FormHelper.SyncedProgramRows | src/ressources/courses/course-form/form-helper.ts:48-86 | after a completed sync a row is stored exactly when it was stored or added, and was not removed |
| FormHelper.SyncedProgramId | src/ressources/courses/course-form/form-helper.ts:48-86 | after a completed sync the course is linked to a program id exactly when that id is desired |
| FormHelper.DesiredIdLinked | src/ressources/courses/course-form/form-helper.ts:58-66 | each desired id is already linked or among the added rows |
| FormHelper.LinkedIdDesired | src/ressources/courses/course-form/form-helper.ts:69-82 | a row of the course that survives the sync names a desired id |
| FormHelper.SyncedProgramsMatchDesired | src/ressources/courses/course-form/form-helper.ts:48-86 | after a completed sync the course's program ids are exactly the desired ids |
| FormHelper.SyncProgramsIdempotent | src/ressources/courses/course-form/form-helper.ts:48-86 | syncing again with the same list finds nothing to add or remove and changes nothing |
| FormHelper.DeleteEach | src/ressources/courses/course-form/form-helper.ts:109-111 | the delete loop stops at the first 404, never moves the counter and never grows the store |
| FormHelper.DeleteOne | src/services/api/schedules-api.ts:168-182 | with distinct ids, deleting a stored meeting by id removes exactly that meeting, and other courses' meetings stay when it belongs to course `c` |
| FormHelper.DeleteEachFacts | src/ressources/courses/course-form/form-helper.ts:109-111 | with distinct ids and stored meetings of course `c` to delete, the loop runs to the end, removes exactly those meetings and leaves other courses' meetings alone |
| FormHelper.CreateEach | src/ressources/courses/course-form/form-helper.ts:122-130 | the create loop only appends meetings of course `c` with ids past the old counter, stops only at 400 or 409, and when it completes has stored one meeting per entry, numbered in list order |
| FormHelper.CreateEachStep | src/ressources/courses/course-form/form-helper.ts:122-130 | one create followed by the rest of the loop gives the loop's contract for the whole list |
| FormHelper.CreateEachFacts | src/ressources/courses/course-form/form-helper.ts:122-130 | the create loop leaves other courses' meetings alone and keeps ids issued and distinct |
| FormHelper.UpdateEach | src/ressources/courses/course-form/form-helper.ts:140-148 | the update loop stops only at 404, keeps every position's id and the counter, and leaves every meeting no entry claims |
| FormHelper.UpdateOne | src/ressources/courses/course-form/form-helper.ts:141-147 | updating a stored meeting of course `c` rewrites exactly that meeting to the entry's fields and keeps ids distinct and other courses alone |
| FormHelper.UpdateAt | src/ressources/courses/course-form/form-helper.ts:141-147 | the update writes the entry's meeting at the position holding its id |
| FormHelper.ReplaceKeepsKeysDistinct | src/services/api/schedules-api.ts:154-158 | replacing a meeting by one with the same id keeps ids distinct |
| FormHelper.OwnedAfterUpdate | src/ressources/courses/course-form/form-helper.ts:140-148 | after the first entry's update the remaining entries still name stored meetings of the course |
| FormHelper.UpdateEachRuns | src/ressources/courses/course-form/form-helper.ts:140-148 | when every entry names a stored meeting of the course and ids are distinct, the loop runs to the end and leaves other courses alone |
| FormHelper.StoresEntriesCons | src/ressources/courses/course-form/form-helper.ts:140-148 | "every entry's meeting is stored" for a list follows from its head and tail |
| FormHelper.DistinctTail | src/ressources/courses/course-form/form-helper.ts:133-137 | without repeated ids the tail has none and does not claim the head's id |
| FormHelper.UpdateEachStores | src/ressources/courses/course-form/form-helper.ts:140-148 | under the same conditions and without repeated ids, every entry's meeting is stored afterwards with the entry's fields |
| FormHelper.SyncRelatedSchedules | src/ressources/courses/course-form/form-helper.ts:89-152 | only 404, 400 or 409 can stop the sync, and the counter never goes back |
| FormHelper.SyncRemovesExactlyObsolete | src/ressources/courses/course-form/form-helper.ts:95-111 | while ids are issued and distinct, the delete phase completes and keeps exactly the meetings that are of another course or claimed by an entry |
| FormHelper.ScheduleDiff | src/ressources/courses/course-form/form-helper.ts:114-137 | an entry is created exactly when its id names no stored meeting of the course, and updated exactly when it does |
| FormHelper.KnownMeansOwned | src/ressources/courses/course-form/form-helper.ts:95-98 | an id is among the course's meetings exactly when a stored meeting of the course has it |
| FormHelper.KnownIsOwned | src/ressources/courses/course-form/form-helper.ts:95-98 | an id among the course's meetings is held by a stored meeting of the course |
| FormHelper.OwnedIsKnown | src/ressources/courses/course-form/form-helper.ts:95-98 | a stored meeting of the course is among the course's meetings |
| FormHelper.CreatedKeepsRemoved | src/ressources/courses/course-form/form-helper.ts:122-130 | the create phase keeps every meeting it started with |
| FormHelper.ClaimedMeetingSurvives | src/ressources/courses/course-form/form-helper.ts:101-130 | a meeting of the course that an entry claims survives the delete and create phases |
| FormHelper.KnownEntriesOwned | src/ressources/courses/course-form/form-helper.ts:101-137 | after deletes and creates, ids are still issued and distinct and every entry to update names a stored meeting of the course |
| FormHelper.CreatePhaseFacts | src/ressources/courses/course-form/form-helper.ts:101-130 | after deletes and creates: ids still fresh, other courses untouched, and every old meeting of the course is claimed by an entry |
| FormHelper.UpdateKeepsClaimed | src/ressources/courses/course-form/form-helper.ts:140-148 | the update loop keeps "every old meeting of the course is claimed" |
| FormHelper.SameIdsKeepFresh | src/ressources/courses/course-form/form-helper.ts:140-148 | a store whose records keep their ids and counter keeps ids issued and distinct |
| FormHelper.SyncSchedulesKeepsOthers | src/ressources/courses/course-form/form-helper.ts:89-152 | while ids are issued and distinct, the sync keeps that so, never changes another course's meetings, can stop only at 400 or 409, and leaves no old meeting of the course that no entry claims |
| FormHelper.NewIdsUnclaimed | src/ressources/courses/course-form/form-helper.ts:133-137 | no entry to update claims an id past the counter |
| FormHelper.UnclaimedStays | src/ressources/courses/course-form/form-helper.ts:140-148 | a meeting no entry claims is left where it was by the update loop |
| FormHelper.DonePhases | src/ressources/courses/course-form/form-helper.ts:89-152 | a completed sync is the update loop run on the result of a completed delete phase and a completed create phase |
| FormHelper.CreatedSurviveUpdate | src/ressources/courses/course-form/form-helper.ts:122-148 | meetings created by the create loop survive an update loop that claims none of their ids |
| FormHelper.SyncCreatesNewEntries | src/ressources/courses/course-form/form-helper.ts:89-152 | a completed sync stores a meeting for every new entry, numbered from the old counter in list order |
| FormHelper.SyncUpdatesKnownEntries | src/ressources/courses/course-form/form-helper.ts:89-152 | a completed sync without repeated entry ids stores every known entry's meeting with the entry's fields |
| FormHelper.SeedCollisionDeletesOtherCourse | src/ressources/courses/course-form/form-helper.ts:95-111 | on the as-written seed, creating a meeting for course 5 issues id 1 and syncing course 5 with an empty list then deletes course 1's Monday meeting instead |
| FormHelper.SeedCreateReusesId | src/services/api/schedules-api.ts:35-117 | the first create on the as-written seed issues id 1 |
| FormHelper.SyncAfterSeedCreate | src/ressources/courses/course-form/form-helper.ts:95-111 | after that create, the empty sync of course 5 removes the seed's first meeting and keeps the new one |
| FormHelper.SyncDeletesFirstHolder | src/ressources/courses/course-form/form-helper.ts:109-111 | whenever a meeting of another course holds the same id earlier in the store, deleting by id removes that other meeting |
| FormHelper.SyncWithoutEntries | src/ressources/courses/course-form/form-helper.ts:95-111 | with no entries, a sync is its delete phase over all the course's meetings |
| FormHelper.IntendedSeedSyncKeepsOthers | src/ressources/courses/course-form/form-helper.ts:89-152 | with the counter past the seed ids, any create followed by any sync leaves every other course's meetings exactly as they were |
| FullCourses.ResolveAll | src/services/api/course-api.ts:227-234 | `Promise.all` of lookups: a result exactly when every lookup succeeds, and then every lookup's value in order |
| FullCourses.JoinCourse | src/services/api/course-api.ts:221-277 | a course's entry is either built or the rejection is 500 "Error fetching data" |
| FullCourses.GetFullCourses | src/services/api/course-api.ts:211-286 | GET /fullCourses is either 500 "Error fetching data" or 200 with one entry per course |
| FullCourses.RoomsJoin | src/services/api/course-api.ts:223-234 | the classrooms resolve exactly when every room row of the course names a stored classroom, and then each entry is that classroom's first record |
| FullCourses.LookupFound | src/services/api/classrooms-api.ts:80-93 | a stored classroom id is found, and the result is its first record |
| FullCourses.ProgramLookupFound | src/services/api/programs-api.ts:98-109 | a stored program id is found, and the result is its first record |
| FullCourses.UserLookupFound | src/services/api/users-api.ts:93-104 | a stored user id is found, and the result is its first record |
| FullCourses.ProgramsJoin | src/services/api/course-api.ts:237-248 | the programs resolve exactly when every program row of the course names a stored program, and then each entry is that program's first record |
| FullCourses.SchedulesJoin | src/services/api/course-api.ts:251-262 | the schedules resolve exactly when every meeting of the course carries a stored classroom id, and then each entry is the meeting with that classroom |
| FullCourses.JoinCourseFacts | src/services/api/course-api.ts:221-277 | a course's entry is built exactly when every relation, meeting and professor resolves, and then it is the course with exactly those records, in store order |
| FullCourses.FullCoursesJoin | src/services/api/course-api.ts:211-286 | GET /fullCourses succeeds exactly when every course is joinable, and then entry `i` is course `i` assembled |
| FullCourses.SeedJoinFails | src/services/api/course-api.ts:251-283 | on the seed data the join fails with 500, because seed meetings carry no classroom id |
| FullCourses.SaveCourse | src/services/api/course-api.ts:296-313 | step 1 changes nothing when it is rejected |
| FullCourses.SaveCourseFacts | src/services/api/course-api.ts:296-313 | with a non-zero id, step 1 updates that course in place to the form's name and the acting user, or rejects with 404 exactly when the id is absent; otherwise it creates a course with the next id, or rejects with 409 exactly when the name is taken |
| FullCourses.UpsertClassroom | src/services/api/course-api.ts:318-328 | a stored classroom id is reused without change; otherwise the classroom is created with the next id, or rejected with 409 exactly when its name is taken |
| FullCourses.LinkClassrooms | src/services/api/course-api.ts:316-335 | step 2 only appends classrooms and rows, stops only at a 409, and when it completes has added one row per classroom |
| FullCourses.GrownKeepsClassroom | src/services/api/course-api.ts:316-335 | a classroom stays stored when the store only grows |
| FullCourses.LinkedRoomsCons | src/services/api/course-api.ts:316-335 | the row of the first classroom plus the rows of the rest give the rows of the list |
| FullCourses.LinkClassroomsRows | src/services/api/course-api.ts:316-335 | after step 2 each form classroom has its row for the course, naming a stored classroom, and the form's own id when that was already stored |
| FullCourses.LinkedRoomsStep | src/services/api/course-api.ts:316-335 | one classroom's upsert and link followed by the rest of the loop gives the loop's rows |
| FullCourses.LinkClassroomsReuse | src/services/api/course-api.ts:320-324 | when every form classroom id is stored, step 2 creates no classroom |
| FullCourses.UpsertProgram | src/services/api/course-api.ts:340-350 | a program is looked up by name and the first holder reused unchanged; otherwise it is created with the next id; either way a stored program with that name and id results |
| FullCourses.NameLookupFound | src/services/api/programs-api.ts:112-123 | a taken name is found, and the result is its first holder |
| FullCourses.LinkPrograms | src/services/api/course-api.ts:338-357 | step 3 only appends programs and rows, stops only at a 409, and when it completes has added one row per program |
| FullCourses.GrownKeepsProgram | src/services/api/course-api.ts:338-357 | a program stays stored when the store only grows |
| FullCourses.LinkedProgramsCons | src/services/api/course-api.ts:338-357 | the row of the first program plus the rows of the rest give the rows of the list |
| FullCourses.LinkProgramsRows | src/services/api/course-api.ts:338-357 | after step 3 each form program has its row for the course, naming a stored program of the same name |
| FullCourses.LinkedProgramsStep | src/services/api/course-api.ts:338-357 | one program's upsert and link followed by the rest of the loop gives the loop's rows |
| FullCourses.LinkProgramsReuse | src/services/api/course-api.ts:342-346 | when every form program's name is taken, step 3 creates no program |
| FullCourses.AddMissingSchedules | src/services/api/course-api.ts:360-381 | step 4 only appends meetings of the course with ids past the old counter, and stops only at 400 or 409 |
| FullCourses.GrownKeepsSlot | src/services/api/course-api.ts:365-372 | a stored slot stays stored when the store only grows |
| FullCourses.AddMissingStoresAll | src/services/api/course-api.ts:360-381 | after a completed step 4 every form meeting has a stored meeting of the course in the same classroom, day and times |
| FullCourses.AddMissingSkipsStored | src/services/api/course-api.ts:374-379 | when every form meeting's slot is already stored, step 4 changes nothing |
| FullCourses.AddMissingCreatesOnlyMissing | src/services/api/course-api.ts:365-379 | every meeting step 4 creates is a form entry with the course id filled in, whose classroom, day, start and end no meeting of the course had when step 4 began |
| FullCourses.AddMissingCreatesFreshSlots | src/services/api/course-api.ts:365-379 | no meeting step 4 creates has the slot of a meeting of the course stored before it, whether that one was there at the start or was created by an earlier entry |
| FullCourses.PlaceSchedules | src/services/api/course-api.ts:360-381 | step 4 touches only the schedules store, and only appends |
| FullCourses.AttachPrograms | src/services/api/course-api.ts:338-381 | steps 3 and 4 touch only programs, their rows and schedules, and only append |
| FullCourses.AttachClassrooms | src/services/api/course-api.ts:316-381 | steps 2 to 4 leave courses and users alone and only append to the other stores |
| FullCourses.CreateFullCourse | src/services/api/course-api.ts:289-396 | POST /fullCourses either rejects with 500 or answers 201 with the saved course and the form's own lists and professor; users never change; the courses store is step 1's result; a rejected step 1 changes nothing; every other store only grows, even on failure |
| FullCourses.CreateFullCourseLinks | src/services/api/course-api.ts:289-396 | on success the new rows link the saved course to each form classroom and program, and every form meeting's slot is stored for it |
| FullCourses.CreateFullCourseReusesClassrooms | src/services/api/course-api.ts:316-335 | when every form classroom id is stored, no classroom is created |
| FullCourses.CreateFullCourseReusesPrograms | src/services/api/course-api.ts:338-357 | when every form program's name is taken, no program is created |
| FullCourses.ResaveKeepsSchedules | src/services/api/course-api.ts:360-381 | re-saving a course whose meetings are all stored creates no meeting |
| FullCourses.ResaveWithLinkedClassroomFails | src/services/api/course-api.ts:297-335 | re-saving a stored course whose first classroom is already linked fails with 500, yet the course update of step 1 persists and nothing else changes |
| FullCourses.FullCoursesAsWrittenFails | src/services/api/course-api.ts:211-286 | as written, GET /fullCourses answers 500 for one stored course with its professor stored and nothing linked, where the route over `getRelsByCourseID` answers 200 with that course's entry; the two agree wherever the as-written route succeeds |
| FullCourses.CreateFullCourseAsWrittenFails | src/services/api/course-api.ts:289-313 | as written, POST /fullCourses of a new course with empty lists answers 500 and leaves the world unchanged, where the route with the acting user's id answers 201 and stores the course |

## Left out

- Latency, `setTimeout` and promises are not modelled. Each call is one atomic step.
- `Promise.all` fan-out runs one call at a time, in list order, and stops at the first rejection. The interleavings of concurrent callbacks are not modelled.
- FullCourses.LinkClassrooms and FullCourses.LinkPrograms: rows are appended in entry order. In the source each entry is one timed chain, and an entry that must be created takes one more call than one that is reused, so its row lands later: for the classrooms [new A, stored B] the source stores (c, B) before (c, A). The order is visible in `getClassroomsByCourse`, `getRelsByCourseID` and GET /fullCourses.
- FullCourses.UpsertProgram: never fails in the model's order. In the source every step-3 lookup finishes before any create, so two entries with the same new name both miss the lookup, the second `createProgram` gets 409 and the route answers 500.
- FullCourses.ResaveWithLinkedClassroomFails: its "nothing else changes" describes the model, where `Promise.all` stops at the first rejection. In the source the other classroom entries' callbacks keep running after the 409, so with more than one classroom entry every other unlinked classroom is still linked, and created first when it is new. The claim holds of the source when the form has exactly one classroom.
- FullCourses.AddMissingSchedules: each entry's read of the schedules is taken just before its own create. In the source every `getSchedules` of step 4 finishes before any `createSchedule` starts. With two identical new entries the source creates the first, gets 409 on the second and answers 500; the model skips the second and answers 201.
- The list routes (`getCourses`, `getClassroom`, `getPrograms`, `getUsers`, `getSchedules`) are not separate members. Each returns its array, and the model reads the array directly.
- Dependency injection (`resolve(...)`), `console` and `alert` are left out.
- `FormHelper.SyncRelatedPrograms`: the source's `try`/`catch` logs and swallows a rejection. The model returns the rejection with the state reached at that point, which is what the store holds.
- `FormHelper.SyncRelatedSchedules`: likewise; the `alert` is left out.
- FullCourses.CreateFullCourse and FullCourses.GetFullCourses follow the API that the route's tests mock, not the code as written. Three calls name methods that do not exist:
  - `createFullCourse` calls `this.authService.getUserID()` on both branches of step 1, and `AuthService` (src/services/auth/auth.ts) has no such method. As written, the route always answers 500 "Error creating full course" and touches no store. The model takes the acting user id as a parameter instead.
  - `getFullCourses` calls `getProgramsByCourse`, which `CourseProgramAPI` does not define. As written, the route answers 500 whenever a course is stored, as the seed's ten courses are. The model calls `getRelsByCourseID` instead.
  - `createFullCourse` calls `addCourseProgramRelation`, which `CourseProgramAPI` does not define. Even with a working `getUserID`, the route would answer 500 after steps 1 and 2 had taken effect whenever the form has a program. The model calls `addRelation` instead.
  - The first two are modelled as written by `FullCourses.CreateFullCourseAsWritten` and `FullCourses.GetFullCoursesAsWritten`; see Findings.
- Objects passed in are mutated in the source (`newProgram.program_id = genID()`). Only the stored copy is modelled.
- FullCourses.CreateFullCourse: the 201 answer echoes the form's classrooms and programs unchanged. In the source `createClassroom` and `createProgram` write the new id into the form's own objects, so the echoed entries that had to be created carry their new ids.
- A spread of a patch field that is present but `undefined` is not modelled. Patches use `Option`, and `None` keeps the old value.
- A classroom without an id in `createFullCourse` is modelled as an id no classroom has.
- The optional `user_id` of a course and `program_id` of a program are plain integers. An absent `user_id` is modelled as an id no user has.
- FormHelper.SyncRelatedPrograms: every desired program is assumed to carry a `program_id`. In the source a desired program without one is compared as `undefined`, lands in `toAdd`, and `addRelation(courseId, undefined)` stores a row with no program id; a second program without an id then gets 409. An integer id cannot express this.
- String comparison uses Dafny characters (code points), while JavaScript compares UTF-16 units. The two agree on every valid `HH:mm` string.
- `FullCourses.LinkClassroomsRows` does not state which record a created classroom gets, only that the row names a stored classroom.
- `FullCourses.CreateFullCourseLinks` is weaker in the same way for classrooms that had to be created.
- `FormHelper.SyncRelatedPrograms`: the contract promises a completed sync only when there are no duplicate rows and no repeated desired ids.
- `FormHelper.SyncSchedulesKeepsOthers` and the other schedule-sync lemmas assume ids are issued and distinct. The as-written seed breaks this; see Findings.
- `Courses.FirstCreateCollidesWithSeed` and `Classrooms.FirstCreateCollidesWithSeed` only show the id reuse. Its effects on the course and classroom routes are not traced further.
- The model follows the code as written in these points:
  - the overlap test compares course and day, not classroom and day;
  - updates are not checked for overlaps;
  - a failure stops a sync rather than being collected;
  - one failed course fails the whole GET /fullCourses;
  - seed ids are reused.

## Findings

| source | as written | input that shows it | evidently intended | confidence | as-written member | corrected member |
|---|---|---|---|---|---|---|
| src/services/api/schedules-api.ts:35-70 | the seed hard-codes ids 1..4 but leaves `id` at 0, so the first `createSchedule` issues id 1 again; `syncRelatedSchedules` then deletes by id, and `deleteSchedule` removes the first record with that id | create Monday 13:00–14:00 for course 5 on the seed, then sync course 5 with no entries: course 1's Monday 09:00 meeting is deleted and the new course-5 meeting stays | seed ids drawn from `genID()` (counter at 4), so ids are unique and a sync never touches another course | not executed | FormHelper.SeedCollisionDeletesOtherCourse | FormHelper.IntendedSeedSyncKeepsOthers |
| src/services/api/course-api.ts:297-313 | step 1 builds its request with `this.authService.getUserID()`, which `AuthService` does not define, so the call throws inside the `try` | POST a new course "Databases" with empty lists over a world holding one other course: the route answers 500 and stores nothing | the acting user's id from the signed-in user, as the route's tests mock it: the route answers 201 and stores the course | not executed | FullCourses.CreateFullCourseAsWrittenFails | FullCourses.CreateFullCourse |
| src/services/api/course-api.ts:237-240 | the join calls `courseProgramAPI.getProgramsByCourse`, which `CourseProgramAPI` does not define, so every course's join throws | one stored course whose professor is stored and which has no rows: the route answers 500 | the course's program rows from `getRelsByCourseID`: the route answers 200 with that course's entry | not executed | FullCourses.FullCoursesAsWrittenFails | FullCourses.FullCoursesJoin |
