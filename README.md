# DEV_TRACKER time-tracking core in Dafny

This project models the domain logic of the DEV_TRACKER API, a time tracker.
Users own projects, projects hold tasks, and a task carries a start/stop
timer that accumulates whole seconds of work. The model covers:

- **Duration helpers** (`CalculateTime`, `Numerals`):
  - milliseconds to whole seconds;
  - `HH:MM:SS` formatting with JavaScript's number-to-text, truncating `%` and `padStart`;
  - the two-bound duration helper.
- **Task timer and project running flag** (`Timer`, `Tracker`):
  - pure start and stop transitions on one task record;
  - a `Store` class holding the task and project collections as maps.
  
  Its methods are the task and project controller operations. The caller's id and the clock are parameters.
- **Reports** (`Reports`):
  - the `$match`/`$group` stages as folds over a sequence of tasks;
  - the status report's result dictionary, filled in a loop.
- **User accounts** (`Accounts`):
  - registration checks, including the e-mail pattern and JavaScript white space;
  - a `Users` class for verification, login, profile update and the reset-token window.
- **Uploads** (`Uploads`):
  - the file filter: an unanchored pattern, tested on the lower-cased extension and on the raw mimetype;
  - Node's `path.extname`;
  - the stored file name.

Record shapes follow `models/Task.js` and `models/Project.js`. `Common` holds `Option`, `Result` and duplicate removal.

Three points of the code's behaviour that the model keeps as written:

- **No clamping on stop.** `stopTaskTimer` (controllers/taskController.js:144-149) adds `Math.floor((now - startTime)/1000)` unchanged. So the duration falls when the clock is earlier than the recorded start. `Timer.StopDurationMonotone` states exactly when.
- **`endTime`.** The stop path assigns `endTime` (controllers/taskController.js:148), but `endTime` is not a path of the task schema. The model keeps it on the record.
- **Password length.** `password.length` (controllers/userController.js:27 and :220) counts UTF-16 code units. The model counts them with `Accounts.JsLength`, so a character outside the Basic Multilingual Plane counts twice.

## Model

| member | source | states |
|---|---|---|
| Common.Distinct | controllers/reportController.js:11 | the group keys: the same elements as the input, none repeated |
| Numerals.ParseNatToDecimal | utils/calculateTime.js:11 | `String(n)` of a natural number reads back as n |
| Numerals.IntToStringInjective | utils/calculateTime.js:11 | different numbers give different texts, negative ones included |
| CalculateTime.MsToSeconds | utils/calculateTime.js:2 | floor(ms/1000): `r*1000 <= ms < r*1000+1000`, non-negative iff ms is |
| CalculateTime.JsRem | utils/calculateTime.js:7-8 | JavaScript `%`: the mathematical remainder for a non-negative dividend, and in (-b, 0] for a negative one; in both cases a - r is the quotient truncated toward zero, times b |
| CalculateTime.PadStart2 | utils/calculateTime.js:11 | `padStart(2,"0")`: width max(2, n), the original text is kept as the suffix, and the padding is zeros |
| CalculateTime.CalculateDuration | utils/calculateTime.js:16-19 | 0 when either bound is falsy; otherwise the floor of the seconds between them, negative exactly when end < start |
| CalculateTime.FieldReadsBack | utils/calculateTime.js:11 | a padded field of v >= 0 is all digits and reads back as v; it is 2 wide below 10, else as wide as v's digits |
| CalculateTime.SplitSeconds | utils/calculateTime.js:6-8 | hours*3600 + minutes*60 + seconds == s, and minutes and seconds are in 0..59 for s >= 0 |
| CalculateTime.FormatDurationShape | utils/calculateTime.js:5-13 | for s >= 0 the text is made of: <br>• an hours field reading s/3600, never truncated, at least 2 wide; <br>• ':' and two digits reading (s%3600)/60 < 60; <br>• ':' and two digits reading s%60 < 60 |
| CalculateTime.FormatDuration | utils/calculateTime.js:5-13 | for every s >= 0, parsing the three ':'-separated fields of the text as h*3600+m*60+sec gives s back |
| CalculateTime.ParseFields | utils/calculateTime.js:11-12 | three padded fields of h, m, sec >= 0 joined by ':' read back as h*3600+m*60+sec |
| CalculateTime.FormatDurationZero | utils/calculateTime.js:5-13 | 0 formats as "00:00:00" |
| CalculateTime.FormatDurationOneHour | utils/calculateTime.js:5-13 | 3600 formats as "01:00:00" |
| CalculateTime.FormatDurationPastOneDay | utils/calculateTime.js:6-12 | hours are not reduced modulo 24: 90061 formats as "25:01:01" |
| CalculateTime.FormatDurationHundredHours | utils/calculateTime.js:6-12 | the hours field grows to three digits: 360000 formats as "100:00:00" |
| CalculateTime.FormatDurationNegative | utils/calculateTime.js:6-12 | a negative total gives negative fields: -1 formats as "-1:-1:-1" |
| CalculateTime.CalculateDurationExample | utils/calculateTime.js:16-19 | bounds 3661000 ms apart give 3661 seconds, formatted "01:01:01" |
| Records.NewTask | controllers/taskController.js:22-28 | a new task has the schema defaults: duration 0, not running, no start time; and the given title, status, project and owner |
| Records.Patched | controllers/taskController.js:72-76 | a field present in the body replaces the stored one; an absent one keeps it |
| Records.ApplyTaskPatch | controllers/taskController.js:72-76 | every field the body carries is stored and every other field keeps its value; endTime is kept and the update time is now |
| Records.ApplyTaskPatchIdempotent | controllers/taskController.js:72-76 | the same body applied twice at the same time gives the same task as once |
| Records.ApplyTaskPatchEmpty | controllers/taskController.js:72-76 | an empty body changes only the update time |
| Records.ApplyProjectPatch | controllers/projectController.js:57-61 | every field the body carries is stored and every other field keeps its value |
| Records.ApplyProjectPatchIdempotent | controllers/projectController.js:57-61 | the same body applied twice gives the same project as once |
| Records.ApplyProjectPatchEmpty | controllers/projectController.js:57-61 | an empty body changes nothing |
| Timer.Started | controllers/taskController.js:113-120 | a running task is returned unchanged. A stopped one: <br>• runs from now; <br>• keeps its work fields and duration; <br>• still satisfies running-iff-start-time if it did before |
| Timer.Stopped | controllers/taskController.js:139-151 | a task that is not running or has no start time is unchanged. Otherwise: <br>• the duration grows by the floor of (now - start)/1000 seconds; <br>• start time is cleared, endTime = now, running is false; <br>• running-iff-start-time is preserved |
| Timer.StartedIdempotent | controllers/taskController.js:113-116 | a second start changes nothing |
| Timer.StoppedIdempotent | controllers/taskController.js:139-142 | a second stop changes nothing |
| Timer.StopDurationMonotone | controllers/taskController.js:144-149 | stopping does not lower the duration iff now >= the recorded start (there is no clamping) |
| Timer.StopAfterStart | controllers/taskController.js:118-150 | start at b then stop at e adds floor((e-b)/1000) and leaves the task stopped with endTime e |
| Timer.SessionsAccumulate | controllers/taskController.js:144-149 | from a stopped task, any sequence of start/stop sessions leaves it stopped. Each session's whole seconds are added, and title, status, project and owner are intact |
| Tracker.StatusOrDefault | controllers/taskController.js:25 | `status \|\| "todo"`: a given status is kept, an absent or empty one becomes "todo" |
| Tracker.SetRunning | controllers/taskController.js:122 | `findByIdAndUpdate(p, {isRunning})`: only project p's flag changes; a missing p is skipped; the key set is unchanged |
| Tracker.ProjectsAfterStart | controllers/taskController.js:113-122 | no project write when the task was already running; otherwise the project's flag is set, whatever it was |
| Tracker.ProjectsAfterStop | controllers/taskController.js:139-163 | no write on a no-op stop. Otherwise the flag is cleared when no task of the caller in that project still runs, and untouched when one does |
| Tracker.RunningAfterStop | controllers/taskController.js:154-158 | after a stop is saved, the query for the caller's running tasks of a project finds what it found before, less the stopped task; a no-op stop changes nothing |
| Tracker.StartKeepsFlagSynced | controllers/taskController.js:118-122 | starting a task of the project's owner leaves "flag iff some owner task runs" true of its project |
| Tracker.StopKeepsFlagSynced | controllers/taskController.js:153-163 | stopping a task of the project's owner keeps "flag iff some owner task runs" true of its project |
| Tracker.WithoutProject | controllers/projectController.js:86 | `deleteMany({project})`: exactly the tasks of other projects remain, unchanged |
| Tracker.Store.CreateTask | controllers/taskController.js:9-28 | errors, each leaving the store unchanged: <br>• missing title or project id: "Title and projectId are required"; <br>• a project that is absent or not the caller's: "Project not found or unauthorized"; <br>• a status outside the enum: a validation error. <br>Otherwise one task is added under a fresh id, owned by the caller, with status defaulting to "todo" |
| Tracker.Store.GetTasks | controllers/taskController.js:40-48 | errors: a missing project id, or a project that is not the caller's. Otherwise exactly the caller's tasks of that project |
| Tracker.Store.GetTaskById | controllers/taskController.js:58-61 | the task iff it exists and is the caller's, else "Task not found or unauthorized" |
| Tracker.Store.UpdateTask | controllers/taskController.js:72-78 | only a task matching (id, caller) is replaced by the body applied to it; otherwise an error and nothing changes |
| Tracker.Store.DeleteTask | controllers/taskController.js:90-95 | only a task matching (id, caller) is removed; otherwise an error and nothing changes |
| Tracker.Store.StartTaskTimer | controllers/taskController.js:107-122 | a missing or foreign task: error, nothing changes. Otherwise the task becomes `Started` and projects become `ProjectsAfterStart`; nothing else changes |
| Tracker.Store.StopTaskTimer | controllers/taskController.js:133-163 | a missing or foreign task: error, nothing changes. Otherwise the task becomes `Stopped`, and projects become `ProjectsAfterStop` over the saved tasks |
| Tracker.Store.CreateProject | controllers/projectController.js:8-20 | a success iff name, description and start time are all given. isRunning is the supplied value, an explicit false included, else false. The owner is the caller; the id is fresh |
| Tracker.Store.GetProjects | controllers/projectController.js:32 | exactly the caller's projects |
| Tracker.Store.GetProjectById | controllers/projectController.js:42-46 | the project iff it exists and is the caller's, else "Project not found or unauthorized" |
| Tracker.Store.FindProject | controllers/projectController.js:98-99 | the project iff it exists, whoever owns it, else "Project not found" |
| Tracker.Store.UpdateProject | controllers/projectController.js:57-65 | only a project matching (id, caller) changes; otherwise an error and nothing changes |
| Tracker.Store.DeleteProject | controllers/projectController.js:77-86 | on success the project and every task of it, of any user, are gone. Every removed task is then not found for its owner. On failure nothing is removed |
| Reports.OwnedBy | controllers/reportController.js:10 | `$match` on the user: exactly the caller's tasks |
| Reports.OwnedByAppend | controllers/reportController.js:10 | matching distributes over concatenation of collections |
| Reports.MatchThenCount | controllers/reportController.js:9-12 | counting a status after the match equals counting the caller's tasks with that status in the whole collection |
| Reports.StatusGroupsFacts | controllers/reportController.js:9-12 | one group per status of the caller's tasks, none repeated. Each count is the number of the caller's tasks with that status |
| Reports.AbsentStatusCountsZero | controllers/reportController.js:14-18 | a status no task of the caller has counts 0 |
| Reports.FillStats | controllers/reportController.js:14-22 | starting from todo, in-progress and done at 0, the loop over the groups (distinct statuses, as `$group` returns them) gives every group's status its count; the keys are the three defaults plus the group statuses, and a default no group names stays 0 |
| Reports.GetTaskStats | controllers/reportController.js:9-22 | keys are todo, in-progress, done, plus every other status of the caller's tasks. Each value is the caller's count of that status, 0 for an unused default |
| Reports.MatchThenSum | controllers/reportController.js:32-33 | summing durations after the match equals summing the durations of the caller's tasks over the whole collection |
| Reports.GetTimeSpent | controllers/reportController.js:32-38 | the total is the sum of the caller's task durations, and formatted == FormatDuration(total). With no negative duration the total is >= 0 and its text reads back as the total |
| Reports.TimeSpentIgnoresOthers | controllers/reportController.js:32-33 | other users' tasks, before or after the caller's, do not change the report |
| Reports.ProjectName | controllers/reportController.js:58-64 | the name of the caller's project with that id when it is non-empty, else "Unknown" |
| Reports.ProjectTaskSummary | controllers/reportController.js:44-70 | entries have distinct project ids, and each entry is built from the caller's tasks of its own project |
| Reports.SummaryOnePerProject | controllers/reportController.js:46-60 | entries have distinct project ids, and the ids are exactly the projects the caller's tasks refer to |
| Reports.SummaryEntryFacts | controllers/reportController.js:49-68 | each entry: <br>• totalTasks >= 1 is the number of the caller's tasks of that project in the collection; <br>• completedTasks is the number of done ones, <= totalTasks; <br>• timeSpent is their summed duration, formatted with FormatDuration; <br>• the name is as in ProjectName |
| Reports.GroupTasks | controllers/reportController.js:49-50 | `$group` by project: exactly the tasks of that project |
| Reports.GroupTasksAppend | controllers/reportController.js:49-50 | grouping distributes over concatenation, so every task of the project is kept in order, as often as it occurs |
| Reports.GroupThenCount | controllers/reportController.js:46-54 | after the match, a project's group has as many tasks, done tasks and summed duration as the caller's tasks of that project counted over the whole collection |
| Reports.SumOverCovers | controllers/reportController.js:49-53 | summing per-group durations over distinct keys covering every task gives the total duration |
| Reports.SummaryTimeAddsUp | controllers/reportController.js:53-67 | the entries' timeSpent add up to getTimeSpent's total for the caller |
| Reports.InWindow | controllers/reportController.js:89-92 | exactly the caller's tasks with from <= updatedAt <= to, bounds included; as many as such tasks in the collection |
| Reports.InWindowAppend | controllers/reportController.js:89-92 | the window filter distributes over concatenation, so every matching task is kept in order, as often as it occurs |
| Reports.EmptyWindow | controllers/reportController.js:89-92 | when from > to no task is selected |
| Reports.Annotated | controllers/reportController.js:96-99 | the same tasks in order, each with FormatDuration of its duration |
| Reports.GetActivityByDateRange | controllers/reportController.js:80-100 | a missing bound fails with "Both 'from' and 'to' date parameters are required". Otherwise: <br>• exactly the caller's tasks in the inclusive window; <br>• count == number returned == number of the caller's tasks in the window; <br>• each task annotated; <br>• empty when from > to |
| Accounts.TrimStart | controllers/userController.js:19 | the result is a suffix of the text that does not start with white space; everything removed is white space |
| Accounts.TrimEnd | controllers/userController.js:19 | the result is a prefix of the text that does not end with white space; everything removed is white space |
| Accounts.TrimEmptyIffBlank | controllers/userController.js:19 | `name.trim()` is empty iff every character is JavaScript white space |
| Accounts.EmailShapeAgrees | controllers/userController.js:23 | the positional check accepts exactly texts of the form atom '@' atom '.' atom. An atom is a non-empty run without white space or '@' |
| Accounts.EmailShapeExamples | controllers/userController.js:23 | "a@b.co" passes; white space, a second '@' or no '.' after the '@' fail |
| Accounts.JsLength | controllers/userController.js:27 | the UTF-16 length lies between the number of characters and twice it |
| Accounts.JsLengthBasic | controllers/userController.js:27 | for text inside the Basic Multilingual Plane the UTF-16 length is the number of characters |
| Accounts.AstralPasswordLongEnough | controllers/userController.js:27 | three characters outside the Basic Multilingual Plane have length 6 and pass the password check |
| Accounts.ValidationErrors | controllers/userController.js:17-29 | one error per failing check (name blank, e-mail not matching, password under 6 UTF-16 units), each iff its check fails, in order name, e-mail, password |
| Accounts.CollectRegistrationErrors | controllers/userController.js:17-29 | the pushed list equals ValidationErrors |
| Accounts.UploadedName | controllers/userController.js:47-48 | `filename \|\| null`: a given non-empty name is kept, anything else becomes null |
| Accounts.NewUser | controllers/userController.js:43-49 | a registered user is local, unverified, without reset token or expiry; it has the given name, e-mail and password, and the uploaded image and CV names |
| Accounts.Verified | controllers/userController.js:85 | verification sets the flag and nothing else |
| Accounts.WithProfile | controllers/userController.js:149-151 | each of name, e-mail, password is replaced iff given (present and non-empty); every other field is unchanged |
| Accounts.WithProfileIdempotent | controllers/userController.js:149-151 | the same profile update twice is the update once |
| Accounts.WithResetToken | controllers/userController.js:187-188 | records the hashed token with expiry now + 600000; nothing else changes |
| Accounts.ResetWindow | controllers/userController.js:212-215 | a token issued at t opens a reset at `now` iff now < t + 600000 |
| Accounts.WithNewPassword | controllers/userController.js:224-226 | the new password is stored; token and expiry are cleared; every other field is unchanged |
| Accounts.ResetSingleUse | controllers/userController.js:224-226 | after a reset no token opens another |
| Accounts.ResetNeedsSameToken | controllers/userController.js:212-215 | a different hashed token does not open a reset |
| Accounts.Users.FindByEmail | controllers/userController.js:35 | a user with that e-mail when one exists, none otherwise |
| Accounts.Users.RegisterUser | controllers/userController.js:16-49 | failing checks return all their errors and store nothing. A taken e-mail returns "User already exists" and stores nothing. Otherwise one new unverified user is stored under a fresh id, and e-mails stay unique |
| Accounts.Users.VerifyEmail | controllers/userController.js:80-86 | errors: an unknown id, "User not found"; an already verified user, "Already verified". Otherwise only the flag is set, so a second verification fails |
| Accounts.Users.LoginUser | controllers/userController.js:97-106 | success iff a verified user has that e-mail and password. A right password of an unverified user gives "Please verify your email first."; anything else gives "Invalid credentials" |
| Accounts.Users.UpdateUserProfile | controllers/userController.js:145-153 | an unknown user is an error. Otherwise the stored user becomes `WithProfile`. An e-mail taken by another user, or a new password under 6 UTF-16 units, fails and changes nothing |
| Accounts.Users.ForgotPassword | controllers/userController.js:180-189 | an unknown e-mail is an error; otherwise that user gets `WithResetToken(now)` |
| Accounts.Users.ResetPassword | controllers/userController.js:209-228 | no user with a matching, unexpired token: "Token expired or invalid". A missing password or one under 6 UTF-16 units: "Password must be at least 6 characters". Either way nothing changes; otherwise that user becomes `WithNewPassword` |
| Uploads.PatternIsSubstringTest | utils/multerConfig.js:17-18 | `AllowedPattern`, the regular-expression search, holds iff one of the seven alternatives occurs anywhere in the text |
| Uploads.DocxSubsumed | utils/multerConfig.js:17 | a text containing "docx" contains "doc" |
| Uploads.PatternSixWords | utils/multerConfig.js:17 | the pattern is the substring test for jpeg, jpg, png, heic, pdf, doc |
| Uploads.ExtName | utils/multerConfig.js:19 | `path.extname`: empty, or a '.' followed by no other '.' and no '/'; always a suffix of the name without its trailing '/'; for a name without '/' (other than "..") it is empty iff no '.' follows the first character |
| Uploads.ExtNameOfName | utils/multerConfig.js:19 | a name of a non-empty stem and an extension, without '/', has that extension |
| Uploads.ExtNameDoubleExtension | utils/multerConfig.js:19 | only the part after the last '.' counts: "archive.tar.gz" gives ".gz" |
| Uploads.ExtNameDotfile | utils/multerConfig.js:19 | a leading '.' does not start an extension: ".profile" gives "" |
| Uploads.FileFilter | utils/multerConfig.js:16-26 | accepted iff the lower-cased extension and the raw mimetype both contain an allowed word, else "Invalid file type" |
| Uploads.FileFilterMimetypeCase | utils/multerConfig.js:21 | the mimetype is not lower-cased: one without lower-case letters is refused |
| Uploads.FileFilterExtensionCase | utils/multerConfig.js:18-20 | the extension is lower-cased first: a name with an extension, dotted stems such as "my.photo.JPG" included, gets the same verdict as the same name with that extension lower-cased |
| Uploads.FileFilterNoExtension | utils/multerConfig.js:18-25 | a name without '.' is refused whatever its mimetype |
| Uploads.StoredFilename | utils/multerConfig.js:8-13 | the name starts with the field name and '-' and ends with the original extension; the part between is the time's decimal text: digits without a leading zero (after a '-' when the time is negative) that read back as the time |
| Uploads.StoredFilenameDistinctTimes | utils/multerConfig.js:11 | the same file under the same field at different times gets different names |
| Uploads.StoredFilenameKeepsExtension | utils/multerConfig.js:11 | with a field name free of '.' and '/', the stored name's extension is the original's |

## Left out

- HTTP wiring, routing, middleware, responses and status codes, process start-up and logging are not modelled. Each operation returns its value or its error message instead.
- Sending mail, password hashing (`bcrypt`), token signing and verification (JWT) and random token generation with SHA-256 hashing are not modelled: they are foreign libraries.
  - Hashing is treated as opaque. Stored passwords are compared by equality.
  - `verifyEmail` receives the id its token decodes to.
  - `forgotPassword` and `resetPassword` receive the hashed token.
- OAuth sign-in, `getUserProfile`, `deleteUserAccount` and `getUsers` are not part of this model.
- Date parsing (`new Date(...)`) and the clock are not modelled: timestamps are integers in milliseconds, and `now` is a parameter.
  - Project `startTime` is kept as the text supplied on creation.
  - Project and user timestamps are not kept.
- Concurrency is not modelled: simultaneous start/stop requests and the non-atomic task-then-project double write are out of scope. Every operation is one sequential step.
- Store internals are not modelled:
  - Document ids are a counter, standing in for ObjectId generation and casting.
  - Mongoose setters (`trim`, `lowercase`) are not applied.
  - Validators are applied only where stated: the task status enum on creation, and the password `minlength` and unique e-mail on profile update.
  - Strict-mode dropping of `endTime` on save is not modelled.
- Reports.ProjectTaskSummary: the order of `$group` output is unspecified by the store; the model fixes first-occurrence order. No stated property depends on the order.
- Common.Distinct: its contract does not state the order of the result, since no caller relies on it.
- Reports.GetTimeSpent: a task whose duration is missing or null (`t.duration || 0`) is not representable. Every task's duration is an integer defaulting to 0.
- Records.ApplyTaskPatch: a body may set `duration` to any integer, but not to null or to a non-number.
- Uploads.ToLowerAscii: lower-cases ASCII letters only, not the full Unicode mapping of `toLowerCase`.
- Numbers are unbounded integers. JavaScript's floating point beyond 2^53, and non-integer durations, are not modelled.
- multer's destination directory and the 5 MB size limit are not modelled: they are library plumbing.
- Accounts.Users.LoginUser: the password is always a text. Calling the hash comparison with a missing password raises a library error, which is not modelled.
- Accounts.Users.UpdateUserProfile: the two failing saves carry only the prefix of the store's error text ("User validation failed", "E11000 duplicate key error").
