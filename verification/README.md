# Doctor-appointment API: a Dafny model of its decision rules

The system is a Laravel JSON API for a medical practice. Patients book appointments, check their bookings, and read a blog. Administrators confirm, cancel, reject and complete appointments, and manage doctors, services and blog posts behind a login and an admin-only gate.

This project models the plain decision rules inside those endpoints:

- **Appointments** (`appointments.dfy`, `appointment_table.dfy`): the status lifecycle of an appointment and the `confirmed_at` rule of update. The admin actions are pure transitions of one record. A `Table` class performs the same steps in place on its rows and is proved to agree with them.
- **Booking** (`booking.dfy`): public booking.
  - the half-hour slot grid of a doctor's day, built by a loop;
  - the conflict test;
  - the ordered guards before a booking is inserted;
  - the patient's status lookup.
- **Blogs** (`blogs.dfy`, `public_blogs.dfy`):
  - the publish, unpublish and archive transitions;
  - the author stamp on creation;
  - the tag list, built by a loop;
  - the public tag and category lists, the featured posts and the related posts.
- **Doctors and services** (`doctors.dfy`, `services.dfy`): activation, deactivation and deletion guards; the bulk reorder of services, done by a loop; the forced role of a new doctor.
- **Listing** (`listing.dfy`): page-size and sort-column selection for the list endpoints.
- **Resources** (`resources.dfy`): the computed fields of the JSON resources. These are the duration text, the experience level, the reading time and the null defaults.
- **Users** (`users.dfy`): the admin gate, the login decision, and the bearer-token store changed by login, logout, logout-all and refresh.

Shared pieces live in their own files:

- `common.dfy`: `Option`, `Supplied` (a request key that may be absent), `FindById` (lookup by id in a sequence table), `Transition` and `Applied` (an admin action on one row and its effect on the table), `Filled` (the `required` rule on strings), `Filter`, `CountWhere` and `Take`.
- `text.dfy`: the decimal rendering of numbers and a reader for it.
- `order.dfy`: the lexicographic order of strings, sorted duplicate-free string lists, and an insertion sort by any total preorder.

**External inputs.** The clock, the password hash check and the database are not modelled:

- "now" and "today" are parameters.
- The password check is a function-typed parameter that the model never looks into.
- Tables are sequences or maps of records. The appointment and blog tables are sequences, where row `k - 1` has id `k`. The doctor directory and public booking see the users table, and everything sees the services table, as maps from id to row. Login searches the users as a sequence, because `first()` returns the first match in order.

## Model

| member | source | states |
|---|---|---|
| Appointments.Approve | app/Http/Controllers/Api/Admin/AppointmentController.php:223-236 | refused with 400 "Appointment is already confirmed" iff the status is confirmed; from every other status, completed included, the record becomes confirmed with `confirmed_at` = now (overwriting any earlier stamp), `admin_notes` replaced only when the key is supplied, and the booking fields unchanged |
| Appointments.Cancel | app/Http/Controllers/Api/Admin/AppointmentController.php:267-283 | refused iff cancelled or completed, with the "already cancelled" message checked before "Cannot cancel a completed appointment"; otherwise cancelled, with the stamp kept and notes only when supplied |
| Appointments.Reject | app/Http/Controllers/Api/Admin/AppointmentController.php:314-326 | refused iff already rejected; from any other status, completed included, rejected, stamp kept, notes only when supplied |
| Appointments.Complete | app/Http/Controllers/Api/Admin/AppointmentController.php:357-373 | moves iff the status is confirmed; "already completed" comes before "Only confirmed appointments can be marked as completed"; the result is completed with the stamp kept |
| Appointments.Update | app/Http/Controllers/Api/Admin/AppointmentController.php:157-163 | supplied status and notes are written; an existing `confirmed_at` is never overwritten; a missing one is set to now exactly when status confirmed was requested |
| Appointments.StatusNameInjective | database/migrations/2025_12_30_065020_create_appointments_table.php:23 | the five enum values have distinct names |
| Appointments.StepFacts | app/Http/Controllers/Api/Admin/AppointmentController.php:157-373 | a single admin action never clears the stamp, creates one only by reaching confirmed, keeps every confirmed record stamped, and never changes the booking |
| Appointments.RunNeverClearsStamp | app/Http/Controllers/Api/Admin/AppointmentController.php:157-373 | no sequence of admin actions clears `confirmed_at` |
| Appointments.RunKeepsStamped | app/Http/Controllers/Api/Admin/AppointmentController.php:157-373 | after any sequence of admin actions, a confirmed appointment carries a confirmation stamp |
| Appointments.StampedIffEverConfirmed | app/Http/Controllers/Api/Admin/AppointmentController.php:157-373 | starting from an unconfirmed, unstamped booking, the record has a stamp iff it was confirmed at some point of the run |
| Appointments.StatusCountsAddUp | app/Http/Controllers/Api/Admin/AppointmentController.php:396-402 | the five per-status counts add up to the total |
| Appointments.Stats | app/Http/Controllers/Api/Admin/AppointmentController.php:396-403 | the statistics counters: the total, the per-status counts summing to the total, and today's count, which is exactly the number of rows dated today and never above the total |
| Common.FindById | app/Http/Controllers/Api/Admin/AppointmentController.php:217-221 | an id is found iff it names a row, and the row found is that one |
| AppointmentTable.Table.Approve | app/Http/Controllers/Api/Admin/AppointmentController.php:217-236 | 404 "Appointment not found" for an unknown id; otherwise the table afterwards is exactly `Approve` applied to that row (a refusal leaves the table unchanged) |
| AppointmentTable.Table.Cancel | app/Http/Controllers/Api/Admin/AppointmentController.php:261-283 | 404 for an unknown id; otherwise the table is exactly `Cancel` applied to that row |
| AppointmentTable.Table.Reject | app/Http/Controllers/Api/Admin/AppointmentController.php:308-326 | 404 for an unknown id; otherwise the table is exactly `Reject` applied to that row |
| AppointmentTable.Table.Complete | app/Http/Controllers/Api/Admin/AppointmentController.php:351-373 | 404 for an unknown id; otherwise the table is exactly `Complete` applied to that row |
| AppointmentTable.Table.Update | app/Http/Controllers/Api/Admin/AppointmentController.php:149-163 | 404 for an unknown id; otherwise that row becomes `Update` of it and no other row changes |
| AppointmentTable.Table.Book | app/Http/Controllers/Api/PublicAppointmentController.php:24-84 | the outcome is the guard chain `Booking.Decide`; a successful booking appends exactly the new record and any refusal leaves the table unchanged |
| Booking.TwoDigits | app/Http/Controllers/Api/PublicAppointmentController.php:133 | two decimal digits denoting the number |
| Booking.ClockMinutes | app/Http/Controllers/Api/PublicAppointmentController.php:31 | an `H:i` text denotes a minute of the day below 1440 |
| Booking.ClockText | app/Http/Controllers/Api/PublicAppointmentController.php:133 | the `H:i` rendering of a minute of the day is a valid `H:i` text that reads back to that minute |
| Booking.ClockTextOfMinutes | app/Http/Controllers/Api/PublicAppointmentController.php:31 | every valid `H:i` text is the rendering of its own minute count |
| Booking.ClockTextInjective | app/Http/Controllers/Api/PublicAppointmentController.php:133 | different minutes render to different texts |
| Booking.SlotTime | app/Http/Controllers/Api/PublicAppointmentController.php:128-139 | each slot's time is a valid `H:i` text |
| Booking.SlotGrid | app/Http/Controllers/Api/PublicAppointmentController.php:128-139 | sixteen slots, "09:00" first and "16:30" last, each 30 minutes after the previous one, all in [09:00, 17:00), none at "17:00" |
| Booking.SlotTimesDistinct | app/Http/Controllers/Api/PublicAppointmentController.php:128-139 | no two slots share a time |
| Booking.OccupiesOnlyPending | app/Http/Controllers/Api/PublicAppointmentController.php:123 | with the five enum values, only a pending appointment holds a slot; the occupied set's "approved" never matches, so a confirmed appointment leaves its slot free |
| Booking.ConflictIffBooked | app/Http/Controllers/Api/PublicAppointmentController.php:63-71 | the booking conflict test holds iff the time is among the booked times the slot list uses (lines 121-125) |
| Booking.AvailableSlots | app/Http/Controllers/Api/PublicAppointmentController.php:101-139 | 422 iff the doctor is missing or unknown or the date is not after today; then 404 iff the doctor is not an active doctor; otherwise exactly the sixteen grid slots in order, each available iff its time is not booked for that doctor and date |
| Booking.Decide | app/Http/Controllers/Api/PublicAppointmentController.php:24-84 | the guards in order: validation 422, doctor not active 404, service given (truthy id) and not active 404, conflict 409; each outcome holds iff the earlier guards passed and its own failed; a booking creates a pending record with the request's fields, no admin notes and no stamp |
| Booking.BookingTakesOnlyItsSlot | app/Http/Controllers/Api/PublicAppointmentController.php:74-84 | after a booking at T, T is added to that doctor's booked times for that day, and every other doctor and day is untouched |
| Booking.BookedSlotShownTaken | app/Http/Controllers/Api/PublicAppointmentController.php:82 | after a booking at T, a slot is free iff it was free before and is not T |
| Booking.RebookingConflicts | app/Http/Controllers/Api/PublicAppointmentController.php:63-71 | sending the same booking again is refused with 409 |
| Booking.BookingKeepsNoDoubleBooking | app/Http/Controllers/Api/PublicAppointmentController.php:63-84 | if no slot is held twice before a booking, none is held twice after it |
| Booking.LaterOrSameIsTotalPreorder | app/Http/Controllers/Api/PublicAppointmentController.php:172-173 | date descending then time descending is a total preorder |
| Booking.CheckStatus | app/Http/Controllers/Api/PublicAppointmentController.php:160-178 | 422 iff the e-mail or phone is blank; 404 iff no row matches both; otherwise exactly the rows matching both, each as often as in the table, latest date first and latest time first within a day |
| Blogs.PublishPost | app/Http/Controllers/Api/Admin/BlogController.php:212-219 | refused iff already published; otherwise published with `published_at` = now, content unchanged |
| Blogs.UnpublishPost | app/Http/Controllers/Api/Admin/BlogController.php:249-256 | refused iff already a draft; otherwise a draft with `published_at` null, from published or from archived |
| Blogs.ArchivePost | app/Http/Controllers/Api/Admin/BlogController.php:286-290 | refused iff already archived; otherwise archived with `published_at` left as it was |
| Blogs.TransitionsKeepStamped | app/Http/Controllers/Api/Admin/BlogController.php:212-290 | the three transitions keep every published post stamped |
| Blogs.UnpublishUndoesPublish | app/Http/Controllers/Api/Admin/BlogController.php:212-256 | publishing an unstamped draft and unpublishing it gives the draft back |
| Blogs.ArchiveThenUnpublish | app/Http/Controllers/Api/Admin/BlogController.php:249-290 | archiving a published post keeps its stamp; unpublishing it afterwards gives a draft with no stamp |
| Blogs.TagsOfMembership | app/Http/Controllers/Api/Admin/BlogController.php:399-406 | a tag is collected iff some post carries it |
| Blogs.CollectTags | app/Http/Controllers/Api/Admin/BlogController.php:399-412 | the merged tag lists, strictly sorted (so without repeats), holding exactly the tags the posts carry |
| Blogs.TagListDeterminedByTagSet | app/Http/Controllers/Api/Admin/BlogController.php:408-409 | the tag list does not depend on the order in which the posts are stored |
| Blogs.BlogTable.Store | app/Http/Controllers/Api/Admin/BlogController.php:100-103 | appends the post with the next id and the signed-in user as author, whatever the request said |
| Blogs.BlogTable.Publish | app/Http/Controllers/Api/Admin/BlogController.php:210-219 | 404 "Blog not found" for an unknown id; otherwise the table is exactly `PublishPost` applied to that row |
| Blogs.BlogTable.Unpublish | app/Http/Controllers/Api/Admin/BlogController.php:247-256 | 404 for an unknown id; otherwise the table is exactly `UnpublishPost` applied to that row |
| Blogs.BlogTable.Archive | app/Http/Controllers/Api/Admin/BlogController.php:284-290 | 404 for an unknown id; otherwise the table is exactly `ArchivePost` applied to that row |
| Blogs.BlogTable.Tags | app/Http/Controllers/Api/Admin/BlogController.php:399-412 | strictly sorted, and a tag is listed iff some post carries it |
| PublicBlogs.PublishedPosts | app/Http/Controllers/Api/PublicBlogController.php:129 | exactly the published posts, each as often as in the table |
| PublicBlogs.PublishedTags | app/Http/Controllers/Api/PublicBlogController.php:129-140 | strictly sorted, and a tag is listed iff some published post carries it (tags compared as strings; see Left out) |
| PublicBlogs.PublishedCategories | app/Http/Controllers/Api/PublicBlogController.php:109-112 | a category occurs iff some published post has it (non-null) |
| PublicBlogs.Categories | app/Http/Controllers/Api/PublicBlogController.php:109-114 | strictly sorted, and a category is listed iff some published post has it |
| PublicBlogs.NewerOrSameIsTotalPreorder | app/Http/Controllers/Api/PublicBlogController.php:157 | `published_at` descending with unstamped posts last is a total preorder |
| PublicBlogs.TakeOfSortedIsTop | app/Http/Controllers/Api/PublicBlogController.php:157-158 | a limit taken from a sorted list keeps elements that come before everything it drops |
| PublicBlogs.Newest | app/Http/Controllers/Api/PublicBlogController.php:157-158 | min(count, n) of the posts, each at most as often as in the input (a sub-multiset), newest first, and every post left out is no newer than any kept |
| PublicBlogs.Featured | app/Http/Controllers/Api/PublicBlogController.php:155-159 | at most six published posts (fewer only when fewer exist), a sub-multiset of the published rows so no post is repeated, newest first; no published post left out is newer than one shown |
| PublicBlogs.PublishedBySlug | app/Http/Controllers/Api/PublicBlogController.php:175-177 | found iff some published post has the slug, and the post found is one |
| PublicBlogs.Candidates | app/Http/Controllers/Api/PublicBlogController.php:183-193 | exactly the published posts other than the source sharing its category (null matching null) or, when it has tags, one of its tags |
| PublicBlogs.Related | app/Http/Controllers/Api/PublicBlogController.php:175-196 | 404 iff no published post has the slug; otherwise at most three candidates (as many as exist up to three), a sub-multiset of the candidates, newest first, none of them the source, and no candidate left out is newer than one shown |
| PublicBlogs.NeverRelatedToItself | app/Http/Controllers/Api/PublicBlogController.php:175-184 | when a published post has the slug, related answers with a list that never contains that post |
| Doctors.DoctorById | app/Http/Controllers/Api/Admin/DoctorController.php:130-132 | found iff the id exists with role doctor |
| Doctors.LookupSeesOnlyDoctors | app/Http/Controllers/Api/Admin/DoctorController.php:130-132 | an existing non-doctor id, an admin's included, is not found |
| Doctors.SetActive | app/Http/Controllers/Api/Admin/DoctorController.php:233-239 | 404 unless a doctor; refused iff the flag already has the target value ("already active"/"already inactive"); otherwise only that doctor's `is_active` changes (lines 267-273 for deactivate) |
| Doctors.SetActiveUndo | app/Http/Controllers/Api/Admin/DoctorController.php:233-273 | a successful activation is undone by deactivation and vice versa |
| Doctors.AppointmentCountZero | app/Http/Controllers/Api/Admin/DoctorController.php:197 | the count is zero iff no appointment names the doctor |
| Doctors.Delete | app/Http/Controllers/Api/Admin/DoctorController.php:194-205 | 404 unless a doctor; refused with the count in the message while any appointment names the doctor; removes the row iff it has none |
| Doctors.DoctorWithAppointmentsSurvives | app/Http/Controllers/Api/Admin/DoctorController.php:197-203 | a doctor named by any appointment is never deleted |
| Doctors.NewDoctor | app/Http/Controllers/Api/Admin/DoctorController.php:102-103 | the new row has role doctor whatever the request said, and the request's other fields |
| Doctors.DoctorDirectory.Store | app/Http/Controllers/Api/Admin/DoctorController.php:102-106 | adds one row under a new id, found afterwards by the doctor lookup; no other row changes |
| Doctors.DoctorDirectory.Activate | app/Http/Controllers/Api/Admin/DoctorController.php:233-239 | reply and table are those of `SetActive` with target true |
| Doctors.DoctorDirectory.Deactivate | app/Http/Controllers/Api/Admin/DoctorController.php:267-273 | reply and table are those of `SetActive` with target false |
| Doctors.DoctorDirectory.Destroy | app/Http/Controllers/Api/Admin/DoctorController.php:194-205 | reply and table are those of `Delete` |
| Services.SetActive | app/Http/Controllers/Api/Admin/ServiceController.php:212-218 | 404 "Service not found" for an unknown id; refused iff the flag already has the target value; otherwise only that service's `is_active` changes (lines 246-252 for deactivate) |
| Services.SetActiveUndo | app/Http/Controllers/Api/Admin/ServiceController.php:212-252 | a successful activation is undone by deactivation and vice versa |
| Services.ReferenceCountZero | app/Http/Controllers/Api/Admin/ServiceController.php:176 | the count is zero iff no appointment names the service |
| Services.Delete | app/Http/Controllers/Api/Admin/ServiceController.php:173-184 | 404 for an unknown id; refused with the count while any appointment names the service; removes the row iff none does |
| Services.ReferencedServiceSurvives | app/Http/Controllers/Api/Admin/ServiceController.php:176-182 | a service named by any appointment is never deleted |
| Services.LastOrder | app/Http/Controllers/Api/Admin/ServiceController.php:286-289 | the order of the last entry listing the id, or none iff the id is not listed |
| Services.ApplyPositions | app/Http/Controllers/Api/Admin/ServiceController.php:286-289 | the same ids; each listed service gets the order of its last entry; unlisted services are unchanged |
| Services.ApplyPositionsStep | app/Http/Controllers/Api/Admin/ServiceController.php:286-289 | applying one more entry sets that service's order on top of the earlier ones |
| Services.LaterEntryWins | app/Http/Controllers/Api/Admin/ServiceController.php:286-289 | an id listed twice keeps the later entry's order |
| Services.ServiceCatalog.Activate | app/Http/Controllers/Api/Admin/ServiceController.php:212-218 | reply and table are those of `SetActive` with target true |
| Services.ServiceCatalog.Deactivate | app/Http/Controllers/Api/Admin/ServiceController.php:246-252 | reply and table are those of `SetActive` with target false |
| Services.ServiceCatalog.Destroy | app/Http/Controllers/Api/Admin/ServiceController.php:173-184 | reply and table are those of `Delete` |
| Services.ServiceCatalog.Reorder | app/Http/Controllers/Api/Admin/ServiceController.php:277-289 | accepted iff the list is non-empty, every id exists and every order is at least 0; a rejected request changes nothing; an accepted one applies the entries in list order |
| Listing.PageSize | app/Http/Controllers/Api/Admin/AppointmentController.php:25-26 | min(requested or 15, 100) |
| Listing.Lower | app/Http/Controllers/Api/Admin/BlogController.php:73 | lower-cases each character, keeping the length |
| Listing.ParseDirection | app/Http/Controllers/Api/Admin/BlogController.php:73 | ascending iff the lower-cased text is "asc", descending iff it is "desc" |
| Listing.AdminBlogSort | app/Http/Controllers/Api/Admin/BlogController.php:69-76 | the requested column (default created_at) and direction (default desc) are used iff the column is on the allow-list; otherwise created_at desc |
| Listing.AdminDoctorSort | app/Http/Controllers/Api/Admin/DoctorController.php:68-75 | the same rule with the doctor allow-list and fallback created_at desc |
| Listing.AdminServiceSort | app/Http/Controllers/Api/Admin/ServiceController.php:61-68 | the same rule with the service allow-list, default and fallback order asc |
| Listing.PublicBlogSort | app/Http/Controllers/Api/PublicBlogController.php:59-64 | sorted iff the column is on the allow-list (default published_at desc); otherwise no ordering at all |
| Listing.FallbackIgnoresDirection | app/Http/Controllers/Api/Admin/BlogController.php:74-76 | when the column is not on the list, the requested direction has no effect on any admin endpoint |
| Resources.FloatIsNeverOne | app/Http/Resources/ServiceResource.php:55 | a float is never identical to the integer 1, so the plural "s" is always added |
| Resources.FormatDurationShort | app/Http/Resources/ServiceResource.php:48-50 | below an hour: "<m> min", with "s" unless m is 1 |
| Resources.FormatDurationLong | app/Http/Resources/ServiceResource.php:52-59 | from an hour on: hours*60 + remainder = m; always "hours"; the minutes only when the remainder is positive |
| Resources.FormatDurationShortExamples | app/Http/Resources/ServiceResource.php:48-50 | 1 gives "1 min", 45 gives "45 mins" |
| Resources.FormatDurationHoursExamples | app/Http/Resources/ServiceResource.php:52-55 | 60 gives "1 hours", 120 gives "2 hours" |
| Resources.FormatDurationMixedExamples | app/Http/Resources/ServiceResource.php:52-59 | 61 gives "1 hours 1 min", 90 gives "1 hours 30 mins" |
| Resources.FormatDurationReadsBack | app/Http/Resources/ServiceResource.php:46-62 | the duration text reads back to its number of minutes |
| Resources.FormatDurationInjective | app/Http/Resources/ServiceResource.php:46-62 | different durations never share a text |
| Resources.ExperienceNotSpecified | app/Http/Resources/DoctorResource.php:48-50 | "Not specified" iff the years are null or 0 |
| Resources.ExperienceLevelByFloors | app/Http/Resources/DoctorResource.php:54-64 | from 1 year on: Junior for 1, Mid-level for 2-4, Senior for 5-9, Expert for 10-19, Master from 20 |
| Resources.ExperienceLevelMonotone | app/Http/Resources/DoctorResource.php:54-64 | more years never give a lower level |
| Resources.AppointmentsCountField | app/Http/Resources/DoctorResource.php:32-35 | emitted iff the relation is loaded or a count exists; a missing count is emitted as 0 |
| Resources.ReadingMinutes | app/Http/Resources/BlogResource.php:51 | the ceiling of words / 200 |
| Resources.ReadingTimeText | app/Http/Resources/BlogResource.php:51-57 | no words: "Less than 1 min"; otherwise "<n> mins read", always with "s" |
| Resources.ReadingMinutesMonotone | app/Http/Resources/BlogResource.php:51 | more words never give fewer minutes |
| Resources.ReadingTimeReadsBack | app/Http/Resources/BlogResource.php:57 | the reading-time text reads back to its minute count |
| Resources.TagsField | app/Http/Resources/BlogResource.php:25 | null tags are emitted as an empty list, others as they are |
| Resources.PublishedAtField | app/Http/Resources/BlogResource.php:36 | a null stamp stays null, a set one is emitted |
| Users.AdminGate | app/Http/Middleware/EnsureUserIsAdmin.php:19-42 | exactly one outcome: no user, not an admin, an inactive admin, or passed on unchanged, each iff the earlier checks passed and its own failed |
| Users.GateReply | app/Http/Middleware/EnsureUserIsAdmin.php:19-40 | 401 "Unauthenticated" for no user, 403 "Unauthorized. Admin access only." for a non-admin, 403 "Account is inactive. Please contact support." for an inactive admin, and nothing only when passed on |
| Users.GateIgnoresActiveFlagOfNonAdmins | app/Http/Middleware/EnsureUserIsAdmin.php:27-32 | a non-admin gets 403 "Unauthorized. Admin access only." whatever the active flag says |
| Users.FirstWithEmail | app/Http/Controllers/Api/AuthController.php:29 | none iff no user has the e-mail; otherwise a user with that e-mail, the first one when it leads |
| Users.Login | app/Http/Controllers/Api/AuthController.php:23-67 | 422 iff the e-mail or password holds only blanks or the password has fewer than six characters; for a valid request, 401 "Invalid credentials" for an unknown e-mail, 403 "Unauthorized. Admin access only." for a non-admin, 403 "Account is inactive. Please contact support." for an inactive admin, 401 "Invalid credentials" for a wrong password; logged in iff none of these applies, with token type "Bearer"; every refusal is 401 or 403 |
| Users.UnknownEmailAndWrongPasswordLookAlike | app/Http/Controllers/Api/AuthController.php:32-49 | an unknown e-mail and a wrong password both give 401 "Invalid credentials" |
| Users.RoleCheckedBeforePassword | app/Http/Controllers/Api/AuthController.php:37-49 | a non-admin or inactive account gets 403 whatever the password check would say, with the admin-only message for a non-admin and the inactive message for an inactive admin |
| Users.LoginRefusesAsGateDoes | app/Http/Controllers/Api/AuthController.php:37-44 | login refuses a non-admin or inactive account with the same status and message as the admin gate sends that user |
| Users.TokenStore.Issue | app/Http/Controllers/Api/AuthController.php:55 | adds one token for the user, distinct from every existing token |
| Users.TokenStore.SignIn | app/Http/Controllers/Api/AuthController.php:23-67 | the outcome is `Login`; a token is issued iff the login succeeds, and a refused login leaves the tokens unchanged |
| Users.TokenStore.Logout | app/Http/Controllers/Api/AuthController.php:86 | removes the current token and nothing else |
| Users.TokenStore.LogoutAll | app/Http/Controllers/Api/AuthController.php:105 | removes every token of the user; other users keep theirs |
| Users.TokenStore.Refresh | app/Http/Controllers/Api/AuthController.php:151-157 | replaces the current token by exactly one new token for the same user |

## Left out

- Eloquent query building, pagination metadata, eager loading and the search and date filters of the list endpoints. Tables are abstract sequences and maps.
- Transactions, and the 500 answers for unexpected exceptions. The one exception the model keeps is the invalid sort direction passed to `orderBy`, reported as `BadDirection`.
- The floating-point averages and the week and month windows of the statistics endpoint, and `number_format` of fees and prices.
- Password hashing and Sanctum tokens. The hash check is an uninterpreted parameter, and a token is an id and a user id.
- `Str::slug`, `str_word_count` and `strip_tags`. The reading time takes the word count as input, and blog slugs are whatever the row holds.
- The e-mail syntax rule and the `date` rule of the request validators. Dates are integers, and `after:today` is `date > today`.
- PHP's `sort` compares numeric strings as numbers. The tag and category lists are ordered lexicographically by character code.
- PublicBlogs.PublishedTags: the public list removes duplicates with a loose comparison, so numerically equal tags such as "1" and "01" are merged into one. The model compares tags as strings and lists both. The admin tag list compares as strings, as modelled.
- The public blog index page size. It is taken from the request without a cap, and only its sort rule is modelled.
- The admin appointment store, show, destroy and index filters. For update, only `status` and `admin_notes` are modelled, because the request class that validates the other fields is not part of this model.
- Booking: the appointment's stored time is taken to be exactly the request's "HH:MM" text. The database `time` column's own formatting is not modelled.
- `User::isAdmin()` is taken to mean role admin, because app/Models/User.php is not part of this model.
- Doctor update and service store/update. Their request classes are declarative rule lists.
- The public doctor and service listings, and the contact form.
- `is_array` checks on tags. A non-null tag column is taken to be a list.
- Booking.AvailableSlots: the doctor and date are validated and the doctor checked. The response's doctor name and specialization are not modelled.
- Appointments.Stats: the week and month counters are left out, and "today" is the date passed in (the today counter itself is stated exactly).
