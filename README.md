# Album-Wall core in Dafny

A model of the state machine behind Album-Wall, a Flask photo-sharing site:
the route handlers of the `main`, `user` and `ajax` blueprints and the
WTForms form classes that guard them.

The database is one object, `Stores.Store`. It holds:

- users, photos, tags and comments, as maps keyed by id;
- the follow and collect relations, as sets of `(source, target)` edges;
- the notification list, where a notification's id is its index;
- the next free id of every table.

`Store.Valid()` ties the fields to the snapshot `Contents()` and requires it
to be `WellFormed`: keys below their next ids, unique usernames and tag
names, existing photo authors and tags, no tag twice on a photo, existing
comment authors and photos, and edges between existing rows.

Each route handler is a method in `MainRoutes`, `UserRoutes` or
`AjaxRoutes`. It takes the store, the session's actor and the request's
arguments, and returns an `Outcome`:

- a flashed message;
- an HTTP abort code;
- a JSON reply with its status;
- a count;
- the page redirected to;
- form errors.

Each handler's contract states the outcome of every guard in the order the
handler evaluates them, and the complete new store. A failing guard leaves
the store unchanged.

The actor is `Option<UserId>`. The anonymous user can do nothing, as
`Guest.can` returns `False`. The decorators map to outcomes as follows:

- `login_required` becomes `LoginRequired`;
- `confirm_required` becomes `ConfirmRequired`;
- `permission_required` becomes `Abort(403)`.

The form classes are modelled as lists of `Validators.Check` run by an
interpreter, `Validators.Run`, with WTForms' chain semantics:

- `DataRequired` and `Optional` stop the chain on blank data, meaning data
  whose Python `strip()` is empty.
- `Length` counts characters.
- `Regexp` uses `re.match`, whose `$` also matches before a final newline.
- A `validate_<field>` method runs after the declared list.

For every form, a lemma states the resulting rule in closed form. The forms
and the routes that run them follow the declarations as written. Where a
declaration departs from what its message or its companion form intends, the
intended rule is proved beside it (see "## Findings").

Python's `str.strip`, `str.split`, `str.lower` and the code-point order of
`ORDER BY` are in `Text`. Neighbour selection, name lookups and
`list.remove` are in `Gallery`. Notification read-state is in `Inbox`. Edge
counts are in `Graph`.

## Model

| member | source | states |
|---|---|---|
| Text.Strip | app/blueprints/main.py:380 | the result is the middle `s[i..j]` of the input between two all-whitespace margins; it is empty iff the input is all whitespace, and otherwise starts and ends with a non-space character |
| Text.StripIdempotent | app/blueprints/main.py:380 | stripping twice is stripping once |
| Text.Split | app/blueprints/main.py:235 | every word of `str.split()` is non-empty and contains no whitespace |
| Text.SplitAtSpace | app/blueprints/main.py:235 | a whitespace character is a word boundary: splitting `a + [c] + b` gives the words of `a` followed by the words of `b` |
| Text.SplitWord | app/blueprints/main.py:235 | a non-empty run without whitespace splits into exactly itself |
| Text.WordLengthAtSpace | app/blueprints/main.py:235 | the first word of `a + [c] + b` ends no later than the whitespace `c` |
| Text.SplitKeepsNonSpace | app/blueprints/main.py:235 | the words, concatenated, are exactly the non-space characters of the input, in order |
| Text.SplitEmptyIffBlank | app/blueprints/main.py:235 | the input splits into no words iff it is blank |
| Text.Lower | app/forms/admin.py:27 | lowering keeps the length, leaves no A-Z, keeps every other character and moves each A-Z to its lower-case letter |
| Text.LowerIdempotent | app/forms/admin.py:27 | lowering twice is lowering once |
| Text.LexLeTotal | app/forms/admin.py:19 | the name order of `order_by(Role.name)` is total |
| Text.LexLeTransitive | app/forms/admin.py:19 | the name order is transitive |
| Validators.RunPlain | app/forms/user.py:11-16 | a chain without stopping validators collects no error iff it started with none and every validator accepts |
| Validators.RequiredChain | app/forms/user.py:11 | a field led by `DataRequired` is valid iff its data is not blank and every later validator accepts |
| Validators.OptionalChain | app/forms/user.py:14-16 | a field led by `Optional` is valid iff its data is blank or every later validator accepts |
| Validators.Required1 | app/forms/user.py:43 | `[DataRequired, a]` is valid iff the data is not blank and `a` accepts |
| Validators.Required2 | app/forms/user.py:11 | `[DataRequired, a, b]` is valid iff the data is not blank and both accept |
| Validators.Required3 | app/forms/user.py:38 | `[DataRequired, a, b, c]` is valid iff the data is not blank and all three accept |
| Validators.Optional1 | app/forms/main.py:7 | `[Optional, a]` is valid iff the data is blank or `a` accepts |
| UserForms.AlnumNotBlank | app/forms/user.py:12-13 | a non-empty ASCII-alphanumeric string is not blank |
| UserForms.NameRule | app/forms/user.py:11 | the name is valid iff it is not blank and has 1..30 characters |
| UserForms.OptionalRule | app/forms/user.py:14-16 | an optional field of at most `max` characters is valid iff it is blank or at most `max` long; empty input is valid |
| UserForms.UsernameRuleAsWritten | app/forms/user.py:12-21 | as declared: the username is valid iff it has 1..30 characters, matches `^[a-zA-Z0-9]*$` under `re.match` (letters and digits, optionally followed by one final newline), is not the lone newline, and it is the current username or no user holds it |
| UserForms.MatchBlankIffNewline | app/forms/user.py:12-13 | a non-empty string the declared pattern matches is blank iff it is the lone newline |
| UserForms.UsernameRule | app/forms/user.py:12-21 | as the message intends: the username is valid iff it has 1..30 characters, all ASCII letters or digits, and it is the current username or no user holds it |
| UserForms.KeepUsernamePasses | app/forms/user.py:19-21 | under the declared checks, keeping one's own well-formed username always passes, even though it is taken |
| UserForms.EditProfileRule | app/forms/user.py:10-21 | as declared, the whole profile form is valid iff each of its five fields meets its own rule, the username that of `UsernameRuleAsWritten` |
| UserForms.TrailingNewlineAccepted | app/forms/user.py:12-13 | the declared pattern accepts "abc" followed by a newline, which is not alphanumeric |
| UserForms.ChangeEmailRule | app/forms/user.py:38 | the e-mail is valid iff it is not blank, has 1..50 characters and is well formed |
| UserForms.ChangePasswordRule | app/forms/user.py:43-45 | valid iff the old password is not blank and the new one is not blank, has 8..128 characters and equals the confirmation, which then meets the same rule |
| UserForms.DeleteAccountRuleAsWritten | app/forms/user.py:61-67 | as declared: valid iff the typed name is not blank, has 1..20 characters and equals the current username |
| UserForms.DeleteAccountRule | app/forms/user.py:61-67 | with the bound usernames actually have: valid iff the typed name is not blank, has 1..30 characters and equals the current username |
| UserForms.LongUsernameCannotDelete | app/forms/user.py:62 | a 21-character username that the declared profile form accepts fails the declared delete form even when typed exactly |
| UserForms.ProfileUsernameCanDelete | app/forms/user.py:62 | with the corrected bound, every username the profile form accepts can delete its account |
| AdminForms.Pairs | app/forms/admin.py:18-19 | one `(id, name)` pair per role row, in row order |
| AdminForms.InsertByName | app/forms/admin.py:19 | inserting one choice adds exactly that choice to the multiset |
| AdminForms.InsertKeepsSorted | app/forms/admin.py:19 | inserting into a name-sorted list keeps it name-sorted |
| AdminForms.RoleChoices | app/forms/admin.py:18-19 | the choices are sorted by name and are exactly the `(id, name)` pairs of all roles, as a multiset |
| AdminForms.RoleChoiceRule | app/forms/admin.py:11-19 | a submitted role id is accepted iff some role has that id |
| AdminForms.AdminUsernameRule | app/forms/admin.py:22-24 | for a username the declared pattern accepts: unchanged passes; changed fails iff some user already holds it |
| AdminForms.AdminEmailRule | app/forms/admin.py:10-28 | the e-mail is valid iff it is not blank, has 1..50 characters, is well formed, and is exactly unchanged or its lower-cased form is no stored address |
| AdminForms.CaseOnlyChangeRefused | app/forms/admin.py:26-28 | changing only the case of one's own lower-case address is refused |
| AdminForms.AdminFormInheritsProfile | app/forms/admin.py:9-14 | the admin form is valid iff the declared profile form is valid against the edited user, the e-mail passes and the role is a choice |
| MainForms.DescriptionRule | app/forms/main.py:7 | a description is valid iff it is blank or at most 500 characters |
| MainForms.TagInputRule | app/forms/main.py:12 | the tag input is valid iff it is blank or at most 64 characters |
| MainForms.CommentRule | app/forms/main.py:17 | a comment body is valid iff it is not blank and has 1..200 characters; the empty body is refused |
| Gallery.Latest | app/blueprints/main.py:98 | none iff the author has no photo with an id in range; otherwise such a photo with the latest timestamp |
| Gallery.Earliest | app/blueprints/main.py:109 | none iff the author has no photo with an id in range; otherwise such a photo with the earliest timestamp |
| Gallery.FirstKey | app/blueprints/user.py:46 | none iff no row in range satisfies the filter; otherwise the lowest such key |
| Gallery.UserNamedFinds | app/blueprints/user.py:46 | the username lookup finds a user iff one has that name, and the user it finds has it |
| Gallery.TagNamedFinds | app/blueprints/main.py:236 | the tag lookup finds a tag iff one has that name, and the tag it finds has it |
| Gallery.RemoveFirst | app/blueprints/main.py:329 | `list.remove` drops one occurrence: the length falls by one and the multiset loses one `x` |
| Gallery.RemoveFirstDistinct | app/blueprints/main.py:329 | on a list without repeats, removal keeps every other element, drops `x` and keeps the list without repeats |
| Graph.SourcesCountIsEdgeCount | app/blueprints/ajax.py:20 | there are as many edges into a target as sources of those edges |
| Graph.AddEdge | app/blueprints/ajax.py:88 | inserting a new edge adds exactly its source to the target's sources |
| Graph.RemoveEdge | app/blueprints/ajax.py:112 | removing an existing edge removes exactly its source from the target's sources |
| Graph.FirstCollect | app/blueprints/ajax.py:97-100 | a target with no edges has count 0, and after one new edge its count is 1 |
| Inbox.Listing | app/blueprints/main.py:345-348 | the listed ids are exactly the caller's notifications (only the unread ones under the filter), in increasing order |
| Inbox.CountIsUnreadListing | app/blueprints/ajax.py:63 | the unread count equals the length of the unread listing |
| Inbox.PushCount | app/blueprints/main.py:130 | pushing an unread notification raises its receiver's unread count by one and no other user's |
| Inbox.MarkReadCount | app/blueprints/main.py:362 | marking a notification read lowers a user's unread count by one iff it was that user's unread notification; marking it again changes nothing |
| Inbox.MarkAllReadCount | app/blueprints/main.py:371-372 | after marking all the caller's notifications read, the caller has none unread, every other user's count is unchanged, and doing it again changes nothing |
| Stores.RenameKeepsUnique | app/forms/user.py:19-21 | replacing one user's row keeps usernames unique when the username is kept or free |
| Stores.DropPhoto | app/blueprints/main.py:280 | the photo is gone with the comments on it and the collects of it; everything else stays |
| Stores.DropUser | app/blueprints/user.py:225 | the user is gone with its photos, its comments, the comments on its photos, its follow edges in both directions and its collects; every other row stays |
| Stores.DropPhotoKeepsWellFormed | app/blueprints/main.py:280 | deleting a photo keeps the store well formed |
| Stores.DropUserKeepsWellFormed | app/blueprints/user.py:225 | deleting a user with its cascade keeps the store well formed |
| Stores.Store.FindUser | app/blueprints/user.py:46 | finds a user iff one has that username, and the one found has it |
| Stores.Store.FindTag | app/blueprints/main.py:236 | finds a tag iff one has that name, and the one found has it |
| Stores.Store.SetPhoto | app/blueprints/main.py:188-189 | only that photo's row changes |
| Stores.Store.SetComment | app/blueprints/main.py:162-163 | only that comment's row changes |
| Stores.Store.PushNotification | app/blueprints/main.py:130 | exactly one unread notification for the receiver is appended |
| Stores.Store.PushNotificationIf | app/blueprints/main.py:129-130 | that notification is appended iff `notify` holds |
| Stores.Store.AddCollect | app/blueprints/main.py:127 | exactly the edge is added |
| Stores.Store.RemoveCollect | app/blueprints/main.py:142 | exactly the edge is removed |
| Stores.Store.AddFollow | app/blueprints/user.py:50 | exactly the edge is added |
| Stores.Store.RemoveFollow | app/blueprints/user.py:62 | exactly the edge is removed |
| Stores.Store.AddTag | app/blueprints/main.py:238-240 | one tag of that name is added under a fresh id |
| Stores.Store.AttachTag | app/blueprints/main.py:241-243 | the tag is appended to that photo's list only |
| Stores.Store.AddComment | app/blueprints/main.py:217-218 | the comment is stored under a fresh id |
| Stores.Store.DetachTag | app/blueprints/main.py:329-330 | the tag leaves that photo's list, and nothing else changes |
| Stores.Store.RemoveTag | app/blueprints/main.py:332-334 | the tag row is deleted |
| Stores.Store.RemoveComment | app/blueprints/main.py:300-301 | the comment row is deleted |
| Stores.Store.RemovePhoto | app/blueprints/main.py:280-281 | the store becomes `DropPhoto` of the old store |
| Stores.Store.RemoveUser | app/blueprints/user.py:225-226 | the store becomes `DropUser` of the old store |
| Stores.Store.SetUser | app/blueprints/user.py:95-100 | only that user's row changes, and usernames stay unique |
| Stores.Store.MarkNotificationRead | app/blueprints/main.py:362-363 | only that notification becomes read |
| MainRoutes.PhotoNext | app/blueprints/main.py:95-103 | 404 for an unknown photo; otherwise the "last photo" message iff the author has no photo with a smaller id, else such a photo with the latest timestamp |
| MainRoutes.PhotoPrevious | app/blueprints/main.py:106-114 | 404 for an unknown photo; otherwise the "first photo" message iff the author has no photo with a larger id, else such a photo with the earliest timestamp |
| MainRoutes.Collect | app/blueprints/main.py:117-131 | login, confirmation, COLLECT, 404, then "Already Collected" with no change; otherwise exactly the edge is added, and one notification to the author iff the collector is not the author and the author accepts collect notifications |
| MainRoutes.Uncollect | app/blueprints/main.py:134-144 | login, 404, then "Not collected yet" with no change; otherwise exactly the edge is removed and no notification is pushed |
| MainRoutes.ReportComment | app/blueprints/main.py:157-165 | login, confirmation, 404; otherwise only the comment's flag rises by one |
| MainRoutes.ReportPhoto | app/blueprints/main.py:168-176 | login, confirmation, 404; otherwise only the photo's flag rises by one |
| MainRoutes.EditDescription | app/blueprints/main.py:179-194 | login, 404, 403 unless author or MODERATE, form errors; otherwise only the description changes |
| MainRoutes.AllowComment | app/blueprints/main.py:249-261 | login, 404, 403 unless the author; otherwise only `comment_allowed` flips, with both messages when it was off |
| MainRoutes.CommentNotes | app/blueprints/main.py:213-221 | the notifications are unread; there is one for the replied-to author iff a reply is given and that author accepts comment notifications, and it comes first; there is one for the photo author iff the commenter is someone else and the author accepts them, and it comes last |
| MainRoutes.CommentNotesReceivers | app/blueprints/main.py:213-221 | at most two notifications; the commenter is notified only as the author replied to; appended to any list, each user gains one unread notification for being the replied-to author (if accepting) plus one for being the photo author other than the commenter (if accepting), and no other user gains any |
| MainRoutes.PostComment | app/blueprints/main.py:208-221 | the comment is stored under a fresh id, then the notifications of `CommentNotes` are appended; nothing else changes |
| MainRoutes.AddCommentThenNotify | app/blueprints/main.py:217-221 | the comment is stored under a fresh id, then one notification is appended iff `notify` holds |
| MainRoutes.NewComment | app/blueprints/main.py:197-223 | login, COMMENT, 404, "Comment Disabled" with no change, form errors, 404 for a missing reply target; otherwise "Comment posted" with the `PostComment` state |
| MainRoutes.ReplyComment | app/blueprints/main.py:264-270 | login, COMMENT, 404; otherwise the page of the comment's photo; the store does not change |
| MainRoutes.TagStep | app/blueprints/main.py:235-243 | one pass of the tag loop keeps `TagsAdded` for one more word |
| MainRoutes.AddTagWord | app/blueprints/main.py:236-243 | the tag named `name` exists afterwards and is on the photo once; it is created only when no tag had that name; old tags are kept |
| MainRoutes.AddTagWords | app/blueprints/main.py:235-243 | after the loop, every word names a tag on the photo, old tags stay first, new tags are named by words no old tag had, and no other row changes |
| MainRoutes.NewTag | app/blueprints/main.py:226-246 | login, 404, 403 unless author or MODERATE, form errors; otherwise every word of the split input is attached, no tag is listed twice, tags are created only for unknown names and old tags are kept |
| MainRoutes.DeleteTag | app/blueprints/main.py:322-337 | login, tag 404, photo 404, 403; 500 when the tag is not on the photo; otherwise the tag leaves the photo, the photo's other tags stay, and the tag row survives iff some photo still lists it |
| MainRoutes.DeletePhoto | app/blueprints/main.py:273-290 | login, 404, 403 unless author or MODERATE; otherwise the store becomes `DropPhoto` |
| MainRoutes.DeleteComment | app/blueprints/main.py:293-303 | login, 404, 403 unless comment author, photo author or MODERATE; otherwise only the comment is removed |
| MainRoutes.ShowNotifications | app/blueprints/main.py:340-352 | login; otherwise exactly the caller's notifications, only the unread ones iff the filter is "unread", whose number is then the unread count |
| MainRoutes.ReadNotification | app/blueprints/main.py:355-365 | login, 404 for an unknown id, 403 for a non-receiver, each with no change; otherwise only that notification becomes read |
| MainRoutes.ReadAllNotifications | app/blueprints/main.py:368-375 | login; otherwise the notification list becomes `MarkAllRead` of the old one (every notification of the caller read, the others as they were) and nothing else changes |
| MainRoutes.SearchRequest | app/blueprints/main.py:378-395 | refused iff the query is blank; otherwise the stripped, non-empty keyword against the user index iff `category` is "user", the photo index iff it is absent or "photo", and the tag index otherwise |
| UserRoutes.Follow | app/blueprints/user.py:41-54 | login, confirmation, FOLLOW, 404, "Already followed" with no change; otherwise exactly the edge is added and the target is notified iff it accepts follow notifications |
| UserRoutes.Unfollow | app/blueprints/user.py:57-67 | login, 404; the edge is removed iff it existed, else "Not yet followed" with no change |
| UserRoutes.EditProfile | app/blueprints/user.py:90-108 | login, form errors of the declared form (so a free username ending in one newline is stored); otherwise exactly name, username, location, website and bio of the caller change |
| UserRoutes.PrivacySetting | app/blueprints/user.py:207-217 | login; otherwise only the caller's `public_collections` changes |
| UserRoutes.DeleteAccount | app/blueprints/user.py:220-229 | login, form errors of the declared form; otherwise the typed name was the caller's username of at most 20 characters, the store becomes `DropUser`, and the caller owns no photo, comment or edge |
| AjaxRoutes.FollowersCount | app/blueprints/ajax.py:17-21 | 404, or the follow edges into the user minus one; this equals the number of followers other than the user when the user follows themself |
| AjaxRoutes.AjaxFollow | app/blueprints/ajax.py:24-42 | 403, 400, 403, 404, 400 in that order with no change; otherwise exactly the edge is added and, as written, the target is notified iff it accepts collect notifications |
| AjaxRoutes.AjaxUnfollow | app/blueprints/ajax.py:45-56 | 403, 404, 400 "Not followed yet" with no change; otherwise exactly the edge is removed |
| AjaxRoutes.NotificationsCount | app/blueprints/ajax.py:59-64 | 403 for a guest; otherwise the caller's unread count, equal to the length of the unread listing |
| AjaxRoutes.AjaxCollect | app/blueprints/ajax.py:75-93 | 403, 400, 403, 404, 400 "Already collected" with no change; otherwise the edge is added, the collector count rises by one, and a notification is pushed iff `not_author` and `allow_notification` both hold |
| AjaxRoutes.CollectorsCount | app/blueprints/ajax.py:96-100 | 404, or the number of collect edges on the photo, which is 0 before any collect |
| AjaxRoutes.AjaxUncollect | app/blueprints/ajax.py:103-115 | 403, 404, 400 "Not yet collected" with no change; otherwise exactly the edge is removed and the collector count falls by one, and the reply is 500 when the caller is not the photo's author (the notification check reads a missing attribute after the removal is committed), 200 otherwise |

## Left out

- Upload, image and avatar routes: file saving, resizing and Flask-Avatars are I/O.
- `explore`, the index feed, `show_photo`, `show_collectors`, `show_by_tag`, the user pages and follower lists: read-only views built on random ordering or pagination.
- Ordering and pagination of every listing, including the newest-first order of the notification page. SQLAlchemy's `paginate` is not part of this model.
- The result of `search`: the Whoosh full-text search is a foreign call. Only the blank-query refusal and the category dispatch are modelled.
- app/blueprints/auth.py, `change_email_request`/`change_email` and the old-password check of `change_password`: these turn on password hashing, tokens, mail and session state.
- `notification_setting`: the handler reads field names the form does not declare, so it cannot run as written.
- `collect_notification`: an unguarded debug endpoint.
- AjaxRoutes.AjaxUncollect: the notification app/blueprints/ajax.py:114 would push is never reached, because line 113 reads an attribute users do not have; the model returns `Abort(500)` there and pushes nothing.
- User creation, role seeding and `Role.init_role`: models.py is not part of this model. Permissions are a set on the user row.
- The bodies of `follow`, `collect`, `is_following`, `is_collecting`, `can` and the `push_*_notification` functions: models.py and notifications.py are not part of this model. They are modelled as edge insertion and deletion, edge membership, permission-set membership and "append one unread notification for the receiver". The text and timestamp of a notification are not kept.
- The deletion cascades: models.py is not part of this model. Stores.DropPhoto and Stores.DropUser follow the relationships the application describes:
  - comments and collects go with their photo;
  - content and edges go with their user;
  - tag rows stay when a photo is deleted;
  - notifications are not cascaded;
  - a deleted comment's replies stay.
- decorators.py and utils.py are not part of this model. `login_required`, `confirm_required` and `permission_required` are modelled as early returns in that order.
- `fresh_login_required` on `delete_account` is treated as `login_required`: session freshness is Flask-Login state.
- app/__init__.py, app/fakes.py and app/config.py: application factory, fake data and constants.
- Flash categories, redirect targets, rendered templates, GET requests that only render, and CSRF tokens are presentation. `delete_photo`'s redirect to a neighbouring photo is one of them.
- Every commit happens inside the store method that changes the row. A failure between two commits is not modelled.
- `Email()` is a function parameter `isEmail`: the syntax check of WTForms' e-mail validator is a foreign library.
- Text.Lower: lowers only A-Z, because Unicode case mapping is not modelled.
- Text.LexLe: compares code points, which is SQLite's default `ORDER BY` collation. Ties between equal role names keep no particular order.
- MainRoutes.NewTag: states that every word is attached and old tags come first, but not the order in which new tags are appended.
- MainRoutes.ShowNotifications: states which notifications are listed, but not their order or paging.

## Findings

| source | as written | input that shows it | evidently intended | confidence | as-written member | corrected member |
|---|---|---|---|---|---|---|
| app/forms/user.py:12-13 | `Regexp('^[a-zA-Z0-9]*$')` is applied with `re.match`, where `$` also matches before a final newline | the username "abc" followed by a newline passes | only ASCII letters and digits, as the message 'Only a-z A-Z 0-9' says | not executed | UserForms.TrailingNewlineAccepted | UserForms.UsernameRule |
| app/forms/user.py:62 | `DeleteAccountForm.username` is limited to `Length(1, 20)` | a 21-character username, which the profile form accepts with its limit of 30, can never be typed into the delete form | the same 30-character bound as the profile form | not executed | UserForms.LongUsernameCannotDelete | UserForms.ProfileUsernameCanDelete |
