# mod_booking: option-form configuration, manager table actions, category summaries

A Dafny model of four pieces of decision logic in the Moodle booking plugin
(mod_booking). Each is written as pure functions over explicit tables, plus
one method with a loop.

- **Option-form field configuration.** Per context and capability, this
  decides which fields the booking-option form shows
  (`classes/settings/optionformconfig/optionformconfig_info.php`). A context's
  materialized path (`/1/5/23`) is exploded and each piece is cast to an int.
  Among the stored `booking_form_config` rows for those contexts, the one
  whose context has the highest context level wins. With no stored row, a
  default list is built from the registry of field classes, sorted by id.
  Saving is an upsert on (area, capability, contextid). A field's status is
  SHOWFIELD when the configuration in force checks it, and HIDEFIELD
  otherwise.
- **Manager table row actions** (`classes/table/manageusers_table.php`):
  - Reordering rewrites `timemodified` as a run of consecutive integers
    seeded by the first row.
  - Confirming and deleting a booking are guarded by
    `mod/booking:bookforothers` on the option's course module.
  - Each row's action-button list has a confirm button only when the option
    is not fully booked, then one delete button.
- **Category and booking queries** (`classes/coursecategories.php`):
  - The course-category query joins each category to its level-40 context.
    It filters by category id and/or top-level parent.
  - The booking-information query gives one row per booking course module
    whose module context lies under `/1/<contextid>/`. Each row has the
    number of options and the answer counts in waiting-list states
    0 (booked), 1 (waiting list) and 2 (reserved). The option count is
    0 for a booking without options. Each state count is an SQL SUM over a
    LEFT JOIN of per-option grouped counts (coursecategories.php:93-115),
    so it is NULL (`None` in the model) when no answer to the booking's
    options is in that state, and in particular when there are no options.
- **The get_parent_categories webservice**
  (`classes/external/get_parent_categories.php`):
  - It lists the viewable top-level categories.
  - It prepends a summary row when no category id is given.
  - Row 0's course count is overwritten with the total over the visible
    records.
  - The booking information is attached as json when it is non-empty.

Modules, one per file:

| file | module | what |
|---|---|---|
| wrappers.dfy | Outcomes | `Option` and `Result` |
| moodle_tables.dfy | MoodleTables | the `context` and `booking_answers` rows shared by the other modules |
| php_strings.dfy | PhpStrings | `explode`/`implode`, the `(int)` cast of a string, integer formatting, `LIKE 'prefix%'` |
| sorting.dfy | Sorting | stable insertion sort by an integer key (`usort`, `ORDER BY`) |
| option_form_config.dfy | OptionFormConfig | optionformconfig_info |
| manage_users_table.dfy | ManageUsersTable | the manager table's actions and buttons |
| course_categories.dfy | CourseCategories | coursecategories |
| parent_categories.dfy | ParentCategories | get_parent_categories::execute |

Inputs in place of ambient state:
- The database tables are sequences or maps of rows.
- A context row is (id, contextlevel, instanceid, path). The option-form lookup reads the context table as a map from context id to row; the category and booking queries join it as a sequence of rows.
- The field registry is a sequence of (id, classname, categories, incompatible) records.
- The capability checks are sets of the course modules or categories on which the user holds the capability.

**Which stored configuration wins.** The lookup orders the candidate rows by `contextlevel DESC` and takes the first (optionformconfig_info.php:150-160). The model picks the candidate of highest context level, and among equal levels the first in stored order.

Two cases that only raise PHP warnings or SQL errors are modelled as the code behaves:
- `return_course_categories(0, false)` leaves `$where` unset, so the query has no WHERE clause and every category that has a category context is returned.
- `return_booking_information_for_coursecategory(0)` refers to the context alias `c` without joining it. The database rejects the query, which the model gives as `Failure(ContextNotJoined)`.

## Model

| member | source | states |
|---|---|---|
| PhpStrings.Explode | classes/settings/optionformconfig/optionformconfig_info.php:144 | explode yields at least one piece, no piece holds the separator, and joining the pieces with the separator gives back the path |
| PhpStrings.ExplodeImplode | classes/settings/optionformconfig/optionformconfig_info.php:144 | exploding a path joined from pieces without separators gives back exactly those pieces, so a leading `/` gives a leading empty piece |
| PhpStrings.IntCast | classes/settings/optionformconfig/optionformconfig_info.php:146 | the `(int)` cast of a piece with no digit, such as the empty piece before the leading `/`, is 0 |
| PhpStrings.IntCastOfIntToString | classes/settings/optionformconfig/optionformconfig_info.php:146 | the `(int)` cast reads back every integer written in decimal |
| OptionFormConfig.CandidateIds | classes/settings/optionformconfig/optionformconfig_info.php:144-146 | there is always at least one searched id, and a path starting with `/` yields 0 first; OptionFormConfig.CandidateIdsOfContextPath gives the full list |
| OptionFormConfig.CandidateIdsOfContextPath | classes/settings/optionformconfig/optionformconfig_info.php:141-146 | the searched ids of a context path are 0 followed by exactly the ancestor ids, root first, with the context itself last |
| OptionFormConfig.MostSpecific | classes/settings/optionformconfig/optionformconfig_info.php:150-160 | the chosen row has area `option`, the requested capability and a context on the path; no candidate has a higher context level; there is no row exactly when no candidate exists |
| OptionFormConfig.EqualLevelsKeepStoredOrder | classes/settings/optionformconfig/optionformconfig_info.php:150-160 | of two candidates of equal context level, the one stored first wins |
| OptionFormConfig.NestedCategoryCandidates | classes/settings/optionformconfig/optionformconfig_info.php:141-146 | the ids searched for a context on the path `/root/parent/child` are 0, root, parent and child, in that order |
| OptionFormConfig.NestedCategoryTie | classes/settings/optionformconfig/optionformconfig_info.php:137-160 | with a row stored for a category context and then one for its subcategory's context (path `/root/parent/child`, both of level 40), a lookup for the subcategory returns the parent's row: on `/1/5/7`, context 7 gets the row of 5 |
| OptionFormConfig.MostSpecificIsFirstOfQuery | classes/settings/optionformconfig/optionformconfig_info.php:150-160 | the chosen row is the first row of the candidates ordered by context level, highest first |
| Sorting.InsertionSort | classes/settings/optionformconfig/optionformconfig_info.php:181 | the result is sorted by the key and is a permutation of the input |
| OptionFormConfig.DefaultFields | classes/settings/optionformconfig/optionformconfig_info.php:163-182 | the default list is sorted ascending by id and is a permutation of the registry's default entries |
| OptionFormConfig.DefaultFieldsContents | classes/settings/optionformconfig/optionformconfig_info.php:165-181 | the default list has one entry per registered field class, every entry comes from a registered class, every class has its entry (checked 1 iff tagged standard, necessary 1 iff tagged necessary), and distinct ids come strictly ascending |
| OptionFormConfig.DefaultEntriesSound | classes/settings/optionformconfig/optionformconfig_info.php:169-179 | any permutation of the default entries holds only entries of registered classes |
| OptionFormConfig.DefaultEntriesComplete | classes/settings/optionformconfig/optionformconfig_info.php:169-179 | any permutation of the default entries holds the entry of every registered class |
| OptionFormConfig.DefaultFieldsIgnoreRegistryOrder | classes/settings/optionformconfig/optionformconfig_info.php:165-181 | the default list does not depend on the order in which the field classes are discovered |
| OptionFormConfig.ConfiguredFieldsForCapability | classes/settings/optionformconfig/optionformconfig_info.php:133-190 | fails exactly for an unknown context; always echoes the requested context id and capability; the field list is that of a highest-level candidate row, or the default list when there is none |
| OptionFormConfig.InheritsFromAncestor | classes/settings/optionformconfig/optionformconfig_info.php:137-161 | a context with no row of its own inherits the field list stored at an ancestor on its path |
| OptionFormConfig.StatusForField | classes/settings/optionformconfig/optionformconfig_info.php:201-217 | the status is SHOWFIELD iff the configuration in force has a checked entry with the field's id, and HIDEFIELD otherwise; NOCONFIGURATION never occurs; userid plays no part |
| OptionFormConfig.StatusWithoutStoredRow | classes/settings/optionformconfig/optionformconfig_info.php:163-216 | with nothing stored on the path, a field is shown iff it is a registered field tagged standard |
| OptionFormConfig.ConfiguredFields | classes/settings/optionformconfig/optionformconfig_info.php:76-91 | one configuration per capability, six in all, in the order of the capability list, each for the given context (the system context for 0) |
| OptionFormConfig.FirstKeyRow | classes/settings/optionformconfig/optionformconfig_info.php:105-109 | finds the first row stored under (option, capability, contextid), or reports that there is none |
| OptionFormConfig.NextRowId | classes/settings/optionformconfig/optionformconfig_info.php:118-123 | an inserted row gets an id no stored row has |
| OptionFormConfig.SaveConfiguredFields | classes/settings/optionformconfig/optionformconfig_info.php:101-127 | save is an upsert: an existing key row gets only its json replaced and every other row is untouched; otherwise exactly one row with the key and json is appended; the status is always "success" |
| OptionFormConfig.SaveIsIdempotent | classes/settings/optionformconfig/optionformconfig_info.php:101-127 | saving the same field list twice leaves the table as saving it once |
| OptionFormConfig.SaveKeepsKeyUnique | classes/settings/optionformconfig/optionformconfig_info.php:105-125 | after a save there is exactly one row under the key, if there was at most one before |
| OptionFormConfig.LookupAfterSave | classes/settings/optionformconfig/optionformconfig_info.php:101-190 | a lookup at the context just saved returns the saved field list when that context outranks the other contexts on its path |
| ManageUsersTable.ReorderTimes | classes/table/manageusers_table.php:117-126 | the reorder loop assigns one timestamp per id sent; it needs the cached row only of the ids it reads, those at a reseeding position (ManageUsersTable.ReadsCached) |
| ManageUsersTable.ReorderTimesStep | classes/table/manageusers_table.php:117-126 | the first id gets its own cached timemodified; each later id gets the previous value plus one, or its own cached timemodified when the previous value is 0 |
| ManageUsersTable.ReorderTimesConsecutive | classes/table/manageusers_table.php:119-126 | with a positive seed the timestamps are the seed, seed + 1, seed + 2, ..., and only the first id's cached row is read |
| ManageUsersTable.Rewrite | classes/table/manageusers_table.php:128-131 | the updates keep the set of answers and change nothing of an answer but its timemodified |
| ManageUsersTable.RewriteFrame | classes/table/manageusers_table.php:128-131 | the updates keep the set of answers, change nothing but timemodified, and leave answers not sent alone |
| ManageUsersTable.RewriteLastWins | classes/table/manageusers_table.php:119-132 | every answer sent ends with the timestamp of its last position in the list |
| ManageUsersTable.ReorderRows | classes/table/manageusers_table.php:104-142 | the reorder action changes only timemodified, only of the answers sent, writes each its reorder timestamp, and always answers success = 1 |
| ManageUsersTable.FindTarget | classes/table/manageusers_table.php:154-164 | the action's answer and its option's course module are found exactly when both exist |
| ManageUsersTable.ConfirmBooking | classes/table/manageusers_table.php:150-185 | success = 1 iff the user holds bookforothers on the course module, and then the table reloads and the user's response is submitted; otherwise success = 0, "No right to book" and no effect |
| ManageUsersTable.DeleteBooking | classes/table/manageusers_table.php:193-226 | success = 1 iff the user holds bookforothers on the course module, and then the table reloads and the user's response is deleted; otherwise success = 0, "No right to book" and no effect |
| ManageUsersTable.ActionButtons | classes/table/manageusers_table.php:245-281 | exactly two buttons, confirm then delete, when the option is not fully booked, and only the delete button when it is; every button acts on the row's answer |
| CourseCategories.CategoryContext | classes/coursecategories.php:62 | a category's context is a level-40 context whose instance is the category, and there is none exactly when no such context exists |
| CourseCategories.Selected | classes/coursecategories.php:42-53 | the WHERE clause built from a non-zero id and onlyparents; CourseCategories.ReturnedIds shows the returned ids are exactly the selected categories with a category context |
| CourseCategories.ReturnCourseCategories | classes/coursecategories.php:39-66 | every returned record is a selected category carrying its level-40 context id; every selected category with such a context is returned; a non-zero id restricts to that category; with distinct category ids, each category is returned at most once |
| CourseCategories.ReturnedIds | classes/coursecategories.php:42-63 | the returned ids are exactly the set of selected categories that have a level-40 context |
| CourseCategories.OptionsOf | classes/coursecategories.php:99 | the options joined to a booking are exactly its options |
| CourseCategories.CountAnswers | classes/coursecategories.php:99-115 | a grouped count is 0 exactly when no answer to the option is in the state, and never exceeds the number of answers |
| CourseCategories.StateCount | classes/coursecategories.php:99-115 | the LEFT JOINed count is NULL exactly when no answer to the option is in the state, and otherwise between 1 and the number of answers |
| CourseCategories.SumStateCounts | classes/coursecategories.php:93-115 | a SUM that is not NULL is positive |
| CourseCategories.SumStateCountsIsNull | classes/coursecategories.php:93-115 | the SUM is NULL exactly when no answer to any of the options is in the state, so always for a booking without options |
| CourseCategories.Info | classes/coursecategories.php:89-95 | a row carries its course module id and the booking's name and intro; with no options all three state sums are NULL |
| CourseCategories.InfoRows | classes/coursecategories.php:89-119 | every row is built from a booking course module in scope, and every such module has its row; with distinct course module ids, each module has at most one row |
| CourseCategories.BookingInformation | classes/coursecategories.php:74-122 | the query fails exactly for context id 0; otherwise its rows are exactly those of the booking course modules under `/1/<contextid>/`, and there are rows iff some booking activity lies there; with distinct course module ids, no module has two rows |
| CourseCategories.SumStateCountsCountsAnswers | classes/coursecategories.php:93-115 | summing the grouped per-option counts of a state counts every answer in that state to any of the options, and gives NULL exactly when there is none |
| CourseCategories.OptionsOfCountsEachOnce | classes/coursecategories.php:92-99 | with distinct option ids, the join lists each of the booking's options exactly once, so its length is the number of those options |
| CourseCategories.SubsequenceKeepsDistinctIds | classes/coursecategories.php:99 | the options joined to a booking keep distinct ids |
| CourseCategories.InfoCounts | classes/coursecategories.php:89-117 | a row reports its course module, the number of the booking's options (counted as a set, each once), and the number of answers to those options with waitinglist 0, 1 and 2 respectively, NULL when zero |
| ParentCategories.Visible | classes/external/get_parent_categories.php:96-102 | the visible records are exactly the records on whose category the user holds the view capability; records with distinct ids stay distinct |
| ParentCategories.TotalCoursesAppend | classes/external/get_parent_categories.php:103 | ParentCategories.TotalCourses, the running `$coursecount`, is additive over concatenation |
| ParentCategories.VisibleDistributes | classes/external/get_parent_categories.php:96-114 | the filter keeps input order |
| ParentCategories.HiddenRecordIsSkipped | classes/external/get_parent_categories.php:100-103 | a record the user may not view changes neither the listed records nor the total, wherever it stands |
| ParentCategories.CategoryRows | classes/external/get_parent_categories.php:96-114 | one row per visible record, in order, with its own course count; json is attached iff some booking activity lies below the category; the loop fails iff a record has context id 0 |
| ParentCategories.Assemble | classes/external/get_parent_categories.php:78-119 | a summary row heads the list iff no category id is given; row 0's course count is the total over the visible records; with an id and nothing visible, the result is one row of count 0 |
| ParentCategories.Execute | classes/external/get_parent_categories.php:69-120 | the webservice's rows: summary row iff id 0, visible records in input order after it, row 0 carrying the visible total, json iff booking information exists |
| ParentCategories.RowsShowVisible | classes/external/get_parent_categories.php:80-114 | the category rows of the result are the visible records, one each, in order, after any summary row |
| ParentCategories.VisibleAreViewableTopCategories | classes/external/get_parent_categories.php:76-102 | every listed record is a viewable top-level category, the requested one when an id is given, and no category is listed twice |
| ParentCategories.ViewableTopCategoriesAreVisible | classes/external/get_parent_categories.php:76-102 | every viewable top-level category with a category context is listed, when no id or its own id is given |

## Left out

- OptionFormConfig.MostSpecific: among candidates of equal context level it takes the first in stored order. The SQL leaves that order unspecified. Nested course categories all have level 40, so the deepest one is not guaranteed to win (OptionFormConfig.NestedCategoryTie shows the parent winning).
- CourseCategories.ReturnCourseCategories and CourseCategories.BookingInformation: neither query has an ORDER BY, so the database's row order is unspecified. The model returns rows in stored table order, and the input order that ParentCategories.Execute keeps is this chosen order.
- OptionFormConfig.DefaultFields: the `usort` comparator never returns 0. The model sorts stably, so the order of entries that share an id is not modelled.
- OptionFormConfig.StatusForField: the `===` comparison of a decoded JSON id with the field id is modelled as integer equality. JSON typing and malformed JSON are not modelled.
- OptionFormConfig.NextRowId: the database's auto-increment is modelled as one more than the largest stored id.
- PhpStrings.IntCast: no integer overflow and no exponent notation. Context path pieces are plain decimal ids.
- ManageUsersTable.ReorderTimes and ManageUsersTable.ReorderRows: require the cached row of every id the loop reads, that is of the first id and of each id after a running value of 0. Ids at other positions are only incremented past and need no cached row. For an uncached id at a reseeding position, PHP reads a property of null: it warns, takes null as the running value and writes it. The model does not cover that case.
- ManageUsersTable.ReorderRows: the cache purge and reading the option id from the first cached row are left out.
- ManageUsersTable.ConfirmBooking and ManageUsersTable.DeleteBooking: `user_submit_response` and `user_delete_response` are not modelled. They are returned as effects.
- CourseCategories.CategoryContext: takes the first level-40 context of a category. Moodle's unique index on (contextlevel, instanceid) means there is at most one.
- JSON encoding and decoding are not modelled. Field lists are sequences of entries, and the attached booking json is the sequence of booking rows.
- The summary row's name and description are localised strings and are not modelled.
- The capability checks are inputs: `has_capability`, `require_login` and `validate_parameters`.
- The context lookups are inputs: `context::instance_by_id`, `context_system::instance` and `context_coursecat::instance`.
- `singleton_service` is an input.
- The check-then-insert race in save, and all concurrency, are left out.
- HTML rendering of the table columns and of the action buttons is left out.
- The page controllers `edit_optiontemplates.php` and `optionformconfig.php` are not part of this model.
