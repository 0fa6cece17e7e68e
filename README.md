# Discussion board core: store, post controllers, password evaluator

This project is a Dafny model of the core of a small JavaFX discussion board for students
and administrators. Its parts are:

- **The H2 store** (`Database`, `DatabaseTables`). The SQL tables are held as values:
  - the `userDB` table is a sequence of `User` rows whose `userName` is unique;
  - `InvitationCodes` is a map from code to email address and role;
  - `Post` and `Reply` are sequences of rows, each with its own identity counter.
    `Reply.postID` references `Post.id`.

  Every SQL failure the code catches (a too-long value, a duplicate key, a broken foreign
  key) becomes its "nothing changes / -1 / false" outcome. The class `Database.Database`
  keeps the tables and the current-user fields, and its methods change them as the Java
  methods do. Its invariant `Valid()` holds the keys, the column widths and the foreign
  key, and every method preserves it.
- **The two post controllers** (`ControllerPosts` for students, `ControllerPostsAdmin` for
  administrators). Each `perform*` action is a method on a `PostsScreen.Screen`. The screen
  holds the two list views, the text fields, the visible panel, the current post id and
  the database as fields. The selected list item and the dialog answer are parameters.
  - Students may change only their own posts and replies.
  - Administrators may change any of them.
  - The role tag of new content and the empty-content and trimmed-edit checks are stated
    outright.
- **The password evaluator** (`Validators.Model`). The static fields of `validators.Model`
  become the fields of one object. `evaluatePassword` is its scanning loop, specified against
  the pure function `Evaluation`, and the lemmas state what that function returns.
- **The display helpers** (`ModelPostsAdmin`, `ModelPosts`). These are the list-item format
  `"id: X author: Y [R] content: Z"` and `getID`, which parses the id back out. They rest on
  models of the Java string operations they use (`JavaStrings`):
  - `Integer.toString` and `Integer.parseInt`;
  - `String.trim`;
  - `split`.
- **The entity classes** (`EntityClasses`). `Post` and `Reply` are classes whose only `var`
  fields are the ones with setters. `PostCollection` and `ReplyCollection` wrap a list
  that their methods reassign.

## Model

| member | source | states |
|---|---|---|
| `EntityClasses.Post.constructor` | TP2/src/entityClasses/Post.java:9-30 | every getter returns its constructor argument |
| `EntityClasses.Post.SetPostId` | TP2/src/entityClasses/Post.java:33-35 | only the id changes |
| `EntityClasses.Post.SetContent` | TP2/src/entityClasses/Post.java:37-39 | only the content changes |
| `EntityClasses.Post.SetAuthorRole` | TP2/src/entityClasses/Post.java:41-43 | only the role changes |
| `EntityClasses.Reply.constructor` | TP2/src/entityClasses/Reply.java:10-36 | every getter returns its constructor argument |
| `EntityClasses.Reply.SetReplyId` | TP2/src/entityClasses/Reply.java:39-41 | only the id changes |
| `EntityClasses.Reply.SetContent` | TP2/src/entityClasses/Reply.java:43-45 | only the content changes |
| `EntityClasses.RemoveFirstSpec` | TP2/src/entityClasses/PostCollection.java:22-24 | removing an element that is present drops exactly one occurrence (as a multiset); an absent element leaves the list as it was |
| `EntityClasses.PostsWithoutIdSpec` | TP2/src/entityClasses/PostCollection.java:26-28 | what remains is every post whose id differs, and nothing else; the list gets shorter iff some post had the id |
| `EntityClasses.RepliesWithoutIdSpec` | TP2/src/entityClasses/ReplyCollection.java:26-28 | the same for replies |
| `EntityClasses.NoneRemovedPosts` | TP2/src/entityClasses/PostCollection.java:26-28 | when no post has the id, the list is unchanged |
| `EntityClasses.NoneRemovedReplies` | TP2/src/entityClasses/ReplyCollection.java:26-28 | the same for replies |
| `EntityClasses.RepliesOfPostSpec` | TP2/src/entityClasses/ReplyCollection.java:43-51 | the replies of a post are exactly those with that post id, and there are never more of them than the receiver holds |
| `EntityClasses.RepliesOfPostAppend` | TP2/src/entityClasses/ReplyCollection.java:43-51 | filtering keeps order: the filter of a concatenation is the concatenation of the filters |
| `EntityClasses.PostCollection.constructor` | TP2/src/entityClasses/PostCollection.java:10-12 | a new collection is empty |
| `EntityClasses.PostCollection.FromList` | TP2/src/entityClasses/PostCollection.java:14-16 | it holds a copy of the given list |
| `EntityClasses.PostCollection.AddPost` | TP2/src/entityClasses/PostCollection.java:18-20 | the post is appended and the size grows by one |
| `EntityClasses.PostCollection.RemovePost` | TP2/src/entityClasses/PostCollection.java:22-24 | returns whether this very object was present; removes its first occurrence, and the size drops by one exactly then |
| `EntityClasses.PostCollection.RemovePostById` | TP2/src/entityClasses/PostCollection.java:26-28 | removes every post with the id, keeps the rest in order, and returns true iff one was removed |
| `EntityClasses.PostCollection.GetPostById` | TP2/src/entityClasses/PostCollection.java:34-41 | returns the first post with the id, or null iff there is none |
| `EntityClasses.PostCollection.Clear` | TP2/src/entityClasses/PostCollection.java:51-53 | the collection is empty and `IsEmpty` holds |
| `EntityClasses.ReplyCollection.constructor` | TP2/src/entityClasses/ReplyCollection.java:10-12 | a new collection is empty |
| `EntityClasses.ReplyCollection.FromList` | TP2/src/entityClasses/ReplyCollection.java:14-16 | it holds a copy of the given list |
| `EntityClasses.ReplyCollection.AddReply` | TP2/src/entityClasses/ReplyCollection.java:18-20 | the reply is appended and the size grows by one |
| `EntityClasses.ReplyCollection.RemoveReply` | TP2/src/entityClasses/ReplyCollection.java:22-24 | returns whether this very object was present; removes its first occurrence |
| `EntityClasses.ReplyCollection.RemoveReplyById` | TP2/src/entityClasses/ReplyCollection.java:26-28 | removes every reply with the id, keeps the rest in order, and returns true iff one was removed |
| `EntityClasses.ReplyCollection.GetReplyById` | TP2/src/entityClasses/ReplyCollection.java:34-41 | returns the first reply with the id, or null iff there is none |
| `EntityClasses.ReplyCollection.GetRepliesByPost` | TP2/src/entityClasses/ReplyCollection.java:43-51 | a fresh collection holding the replies of the post in the receiver's order; the receiver is untouched |
| `EntityClasses.ReplyCollection.Clear` | TP2/src/entityClasses/ReplyCollection.java:62-64 | the collection is empty and `IsEmpty` holds |
| `JavaStrings.DigitChar` | TP2/src/guiPostsAdmin/ModelPostsAdmin.java:103 | the character written for a digit is a decimal digit of that value |
| `JavaStrings.NatToString` | TP2/src/guiPostsAdmin/ModelPostsAdmin.java:103 | a non-negative int is written as a non-empty string of digits |
| `JavaStrings.IntToStringShape` | TP2/src/guiPostsAdmin/ModelPostsAdmin.java:103 | a written int is non-empty, made of digits and '-', and holds no space |
| `JavaStrings.ParseInt` | TP2/src/guiPostsAdmin/ModelPostsAdmin.java:67 | only a non-empty string parses |
| `JavaStrings.NatToStringValue` | TP2/src/guiPostsAdmin/ModelPostsAdmin.java:103 | the digits written for n have the value n |
| `JavaStrings.IntToStringRoundTrip` | TP2/src/guiPostsAdmin/ModelPostsAdmin.java:67 | parsing the text of any 32-bit int gives that int back |
| `JavaStrings.NegativeRoundTrip` | TP2/src/guiPostsAdmin/ModelPostsAdmin.java:67 | the round trip for negative ints, down to -2147483648 |
| `JavaStrings.NonNegativeRoundTrip` | TP2/src/guiPostsAdmin/ModelPostsAdmin.java:67 | the round trip for non-negative ints |
| `JavaStrings.Utf16Length` | TP2/src/database/Database.java:108-150 | `String.length()` and a VARCHAR width count UTF-16 units, which lie between the number of characters and twice it |
| `JavaStrings.Utf16LengthIff` | TP2/src/database/Database.java:108-150 | the UTF-16 length equals the number of characters iff no character is supplementary, and is twice it iff all are |
| `JavaStrings.TrimStart` | TP2/src/guiPosts/ControllerPosts.java:376 | drops exactly the leading characters at or below U+0020 |
| `JavaStrings.TrimEnd` | TP2/src/guiPosts/ControllerPosts.java:376 | drops exactly the trailing characters at or below U+0020 |
| `JavaStrings.TrimEnds` | TP2/src/guiPosts/ControllerPosts.java:376 | a trimmed string starts and ends with a character above U+0020 |
| `JavaStrings.TrimInfix` | TP2/src/guiPosts/ControllerPosts.java:376 | the trimmed string is a contiguous piece of the original |
| `JavaStrings.TrimIdempotent` | TP2/src/guiPosts/ControllerPosts.java:376 | trimming twice is trimming once |
| `JavaStrings.TrimEmptyIff` | TP2/src/guiPosts/ControllerPosts.java:332 | a string trims to "" iff all its characters are at or below U+0020 |
| `JavaStrings.Before` | TP2/src/guiPostsAdmin/ModelPostsAdmin.java:55-59 | the first piece of a split is a prefix of the input |
| `JavaStrings.Segments` | TP2/src/guiPostsAdmin/ModelPostsAdmin.java:63 | splitting at spaces yields at least one piece |
| `JavaStrings.DropTrailingEmpty` | TP2/src/guiPostsAdmin/ModelPostsAdmin.java:63 | trailing empty pieces are removed, and nothing else |
| `JavaStrings.SegmentsNoSpace` | TP2/src/guiPostsAdmin/ModelPostsAdmin.java:63 | a string without a space is one piece |
| `JavaStrings.SegmentsOneSpace` | TP2/src/guiPostsAdmin/ModelPostsAdmin.java:63 | two space-free words joined by one space split back into those words |
| `JavaStrings.SplitTwoWords` | TP2/src/guiPostsAdmin/ModelPostsAdmin.java:63 | `split(" ")` of "a b" is [a, b] when b is non-empty |
| `JavaStrings.BeforeFirst` | TP2/src/guiPostsAdmin/ModelPostsAdmin.java:55-59 | the first piece is the text before the first occurrence of the separator |
| `ModelPostsAdmin.IdHeaderRoundTrip` | TP2/src/guiPostsAdmin/ModelPostsAdmin.java:52-71 | `getID` of "id: N author: …" returns N, whatever follows |
| `ModelPostsAdmin.DisplayRoundTrip` | TP2/src/guiPostsAdmin/ModelPostsAdmin.java:94-107 | `getID` of any formatted item returns its id |
| `ModelPostsAdmin.GetIDOfFormattedPost` | TP2/src/guiPostsAdmin/ModelPostsAdmin.java:94-107 | `getID(formatPostForDisplay(p)) == p.getPostID()` for every post |
| `ModelPostsAdmin.GetIDOfFormattedReply` | TP2/src/guiPostsAdmin/ModelPostsAdmin.java:124-134 | `getID(formatReplyForDisplay(r)) == r.getReplyID()` for every reply |
| `ModelPostsAdmin.GetIDOfPostToString` | TP2/src/entityClasses/Post.java:46-48 | `getID` also reads the id back out of `Post.toString` |
| `ModelPostsAdmin.GetIDOfReplyToString` | TP2/src/entityClasses/Reply.java:48-50 | `getID` also reads the id back out of `Reply.toString` |
| `ModelPostsAdmin.NullRoleShownAsUnknown` | TP2/src/guiPostsAdmin/ModelPostsAdmin.java:98 | a missing role is displayed exactly as the role "Unknown" |
| `ModelPosts.GetIDOfFormattedPost` | TP2/src/guiPosts/ModelPosts.java:47-56 | the student formatter's round trip for posts |
| `ModelPosts.GetIDOfFormattedReply` | TP2/src/guiPosts/ModelPosts.java:66-75 | the student formatter's round trip for replies |
| `Validators.FirstInvalid` | TP2/src/validators/Model.java:118-133 | the index of the first character outside the accepted alphabet, or the length |
| `Validators.LineOf` | TP2/src/validators/Model.java:155-172 | each requirement line is non-empty and ends with a newline |
| `Validators.AddIf` | TP2/src/validators/Model.java:155-172 | a line is appended exactly when its flag asks for it |
| `Validators.LinesAppend` | TP2/src/validators/Model.java:155-172 | appending a requirement appends its line to the message |
| `Validators.LinesEmpty` | TP2/src/validators/Model.java:174-175 | the message is "" iff no requirement is listed |
| `Validators.HasClassExtend` | TP2/src/validators/Model.java:118-129 | one more scanned character adds its own class and nothing else |
| `Validators.StopsAtInvalid` | TP2/src/validators/Model.java:130-133 | the scan stops at the first invalid character, at its index |
| `Validators.StopsAtLimit` | TP2/src/validators/Model.java:138-142 | the scan stops at index 32 when 33 characters are valid |
| `Validators.RunsToEnd` | TP2/src/validators/Model.java:144-152 | otherwise the scan reaches the end of the input |
| `Validators.Scan` | TP2/src/validators/Model.java:114-152 | the `while (running)` loop ends in the state `ScanOutcome` describes |
| `Validators.AppendLine` | TP2/src/validators/Model.java:156-157 | one `+=` step keeps the message equal to the lines of the listed requirements |
| `Validators.Model.constructor` | TP2/src/validators/Model.java:34-46 | the static fields' initial values |
| `Validators.Model.ComposeReport` | TP2/src/validators/Model.java:155-172 | the message lists the missing requirements in the fixed order |
| `Validators.Model.EvaluatePassword` | TP2/src/validators/Model.java:81-179 | the result and every field afterwards are those of `Evaluation` |
| `Validators.Model.KeepLoopState` | TP2/src/validators/Model.java:114-152 | the loop's flags and cursor are written back, and nothing else |
| `Validators.Model.KeepFlags` | TP2/src/validators/Model.java:101-107 | the six requirement flags are written back, and nothing else |
| `Validators.Model.Conclude` | TP2/src/validators/Model.java:130-178 | the ending of the evaluation is `Finish` of the scan's end state |
| `Validators.Model.ReportMissing` | TP2/src/validators/Model.java:154-178 | the requirement report, with the error index set only when something is missing |
| `Validators.EmptyPassword` | TP2/src/validators/Model.java:83-90 | "" gives the empty-password error with index 0, and the requirement flags keep their old values |
| `Validators.InvalidCharacterReported` | TP2/src/validators/Model.java:118-133 | the first invalid character at i (within 33) gives the invalid-character error with index i |
| `Validators.TooLongReported` | TP2/src/validators/Model.java:134-142 | 33 valid characters give the too-long error with index 32, and both length flags set |
| `Validators.FullScanReport` | TP2/src/validators/Model.java:101-178 | after a full scan each flag holds iff the input has a character of its class, the length flag iff the length is at least 8, and the message lists what is missing |
| `Validators.RequirementLinesEmpty` | TP2/src/validators/Model.java:155-175 | the report is "" iff every flag is satisfied and the input is not too long |
| `Validators.AcceptedIff` | TP2/src/validators/Model.java:81-179 | the result is "" iff every character is valid, the length is 8 to 32 and all four classes occur |
| `DatabaseTables.Filter` | TP2/src/database/Database.java:308-343 | `DELETE … WHERE` keeps exactly the rows it does not match, in table order |
| `DatabaseTables.FilterConcat` | TP2/src/database/Database.java:308-343 | deletion distributes over concatenation |
| `DatabaseTables.FilterKeepsAll` | TP2/src/database/Database.java:308-343 | a delete that matches no row leaves the table unchanged |
| `DatabaseTables.FilterNone` | TP2/src/database/Database.java:308-343 | a delete that matches every row empties the table |
| `DatabaseTables.FilterShrinks` | TP2/src/database/Database.java:308-343 | the table shrinks iff some row matched |
| `DatabaseTables.FilterIdempotent` | TP2/src/database/Database.java:308-343 | a delete repeated with the same condition removes nothing more |
| `DatabaseTables.UpdateWhere` | TP2/src/database/Database.java:279-303 | `UPDATE … WHERE` changes exactly the matching rows |
| `DatabaseTables.WithField` | TP2/src/database/Database.java:1019-1029 | setting one name column changes that column only |
| `DatabaseTables.WithRole` | TP2/src/database/Database.java:1292-1339 | setting one role flag changes that flag only |
| `DatabaseTables.NameSetSize` | TP2/src/database/Database.java:594-605 | under the UNIQUE constraint the table has as many distinct user names as rows |
| `DatabaseTables.FindUserIndex` | TP2/src/database/Database.java:772-787 | the index of the first row with the name, or the table size |
| `DatabaseTables.FindUser` | TP2/src/database/Database.java:772-787 | a row is found iff the name is taken, and it carries that name |
| `DatabaseTables.FindUserUnique` | TP2/src/database/Database.java:112 | with unique names, looking a row's name up finds that row |
| `DatabaseTables.LoginByName` | TP2/src/database/Database.java:692-758 | a login succeeds iff the row of that name has the password and the role flag |
| `DatabaseTables.LoginAfterRegister` | TP2/src/database/Database.java:617-655 | a registered new user logs in for a role iff their row has it |
| `DatabaseTables.SetUserField` | TP2/src/database/Database.java:1019-1029 | the update touches the rows with that name only |
| `DatabaseTables.SetUserRole` | TP2/src/database/Database.java:1292-1339 | the role update touches the rows with that name only |
| `DatabaseTables.SetUserFieldMissing` | TP2/src/database/Database.java:1019-1029 | an update of a name no row has leaves the table as it was |
| `DatabaseTables.SetUserFieldKeepsNames` | TP2/src/database/Database.java:112 | updating a column keeps the names unique and unchanged |
| `DatabaseTables.SetUserRoleKeepsNames` | TP2/src/database/Database.java:112 | updating a role keeps the names unique and unchanged |
| `DatabaseTables.FieldRoundTrip` | TP2/src/database/Database.java:1019-1029 | after an update the user's row holds the new value |
| `DatabaseTables.ColumnOf` | TP2/src/database/Database.java:990-1004 | a name column reads as a value iff the user exists, and the value is that user's |
| `DatabaseTables.SelectColumn` | TP2/src/database/Database.java:1147-1161 | the getters as written: as `ColumnOf`, except that the preferred first name always reads as null |
| `DatabaseTables.PreferredFirstNameLost` | TP2/src/database/Database.java:1147-1161 | a stored preferred first name reads back as null |
| `DatabaseTables.ColumnRoundTrip` | TP2/src/database/Database.java:1176-1186 | reading a column after updating it gives the new value |
| `DatabaseTables.UserNames` | TP2/src/database/Database.java:665-679 | one name per row, in table order |
| `DatabaseTables.NumberOfRoles` | TP2/src/database/Database.java:801-807 | the number of roles whose flag is set, so between 0 and 3; 0 iff no flag is set and 3 iff all are |
| `DatabaseTables.RolesOfSize` | TP2/src/database/Database.java:801-807 | the set of a user's roles has one element per true flag |
| `DatabaseTables.SupplementaryContentTooLong` | TP2/src/database/Database.java:134-136 | 300 supplementary characters are 600 UTF-16 units, too long for the content column |
| `DatabaseTables.PostIdsDistinct` | TP2/src/database/Database.java:133-137 | the primary key: two rows with the same id are the same row |
| `DatabaseTables.ReplyIdsDistinct` | TP2/src/database/Database.java:142-148 | the same for replies |
| `DatabaseTables.SameIdsKeepPostKeys` | TP2/src/database/Database.java:279-303 | rewriting rows without changing their ids keeps the key |
| `DatabaseTables.SameIdsKeepReplyKeys` | TP2/src/database/Database.java:513-536 | the same for replies |
| `DatabaseTables.FindPost` | TP2/src/database/Database.java:199-229 | a row is found iff one has the id, and it has the id |
| `DatabaseTables.FindReply` | TP2/src/database/Database.java:398-426 | the same for replies |
| `DatabaseTables.FindPostUnique` | TP2/src/database/Database.java:199-229 | with the key, looking a row's id up finds that row |
| `DatabaseTables.FindReplyUnique` | TP2/src/database/Database.java:398-426 | the same for replies |
| `DatabaseTables.RepliesOf` | TP2/src/database/Database.java:433-467 | exactly the replies with that post id |
| `DatabaseTables.RepliesNotOf` | TP2/src/database/Database.java:316-322 | exactly the replies of the other posts |
| `DatabaseTables.PostsWithout` | TP2/src/database/Database.java:326-333 | exactly the posts with another id |
| `DatabaseTables.RepliesWithout` | TP2/src/database/Database.java:541-560 | exactly the replies with another id |
| `DatabaseTables.DeletePostTwice` | TP2/src/database/Database.java:308-343 | a second `deletePost` of the same id deletes no further post and no further reply |
| `DatabaseTables.DeleteReplyTwice` | TP2/src/database/Database.java:541-560 | a second `deleteReply` of the same id deletes nothing more |
| `DatabaseTables.RemoveCodeTwice` | TP2/src/database/Database.java:954-976 | removing a code twice leaves the table as removing it once; removing a code that is not stored changes nothing |
| `DatabaseTables.PostsWithContent` | TP2/src/database/Database.java:279-303 | only the content of the row with the id changes |
| `DatabaseTables.RepliesWithContent` | TP2/src/database/Database.java:513-536 | the same for replies |
| `DatabaseTables.CreatedPostFound` | TP2/src/database/Database.java:155-194 | a new post is found under its id |
| `DatabaseTables.CreatedReplyFound` | TP2/src/database/Database.java:351-391 | a new reply is found under its id |
| `DatabaseTables.UpdatedPostFound` | TP2/src/database/Database.java:279-303 | after an update the post under that id has the new content |
| `DatabaseTables.UpdatedReplyFound` | TP2/src/database/Database.java:513-536 | after an update the reply under that id has the new content |
| `DatabaseTables.DeleteTouchesOnlyAuthor` | TP2/src/guiPosts/ControllerPosts.java:254-278 | deleting one's own post removes posts of that author only |
| `DatabaseTables.EditTouchesOnlyAuthor` | TP2/src/guiPosts/ControllerPosts.java:341-385 | editing one's own post changes posts of that author only |
| `DatabaseTables.DeleteReplyTouchesOnlyAuthor` | TP2/src/guiPosts/ControllerPosts.java:609-627 | deleting one's own reply removes replies of that author only |
| `DatabaseTables.EditReplyTouchesOnlyAuthor` | TP2/src/guiPosts/ControllerPosts.java:662-704 | editing one's own reply changes replies of that author only |
| `DatabaseTables.FilterKeepsPostKeys` | TP2/src/database/Database.java:326-333 | deleting posts keeps the primary key |
| `DatabaseTables.FilterKeepsReplyKeys` | TP2/src/database/Database.java:541-560 | deleting replies keeps the primary key |
| `DatabaseTables.AppendKeepsPostKeys` | TP2/src/database/Database.java:155-194 | inserting with the next identity value keeps the key |
| `DatabaseTables.AppendKeepsReplyKeys` | TP2/src/database/Database.java:351-391 | the same for replies |
| `Database.PostObjects` | TP2/src/database/Database.java:252-263 | one `Post` per row, in order, each showing its row |
| `Database.ReplyObjects` | TP2/src/database/Database.java:448-460 | one `Reply` per row, in order, each showing its row |
| `Database.RoleNamed` | TP2/src/database/Database.java:1292-1339 | exactly "Admin", "Role1" and "Role2" name a role column |
| `Database.DeleteKeepsValid` | TP2/src/database/Database.java:308-343 | the cascading delete keeps both keys and the foreign key, and leaves no reply of the post |
| `Database.UpdatePostKeepsValid` | TP2/src/database/Database.java:279-303 | a content update that fits keeps the tables valid |
| `Database.UpdateReplyKeepsValid` | TP2/src/database/Database.java:513-536 | the same for replies |
| `Database.SetFieldKeepsValid` | TP2/src/database/Database.java:1019-1029 | a column update that fits keeps the user table valid |
| `Database.SetRoleKeepsValid` | TP2/src/database/Database.java:1292-1339 | a role update keeps the user table valid |
| `Database.Database.constructor` | TP2/src/database/Database.java:108-150 | the tables start empty and both identities start at 1 |
| `Database.Database.CreatePost` | TP2/src/database/Database.java:155-194 | appends the row with a fresh id and returns it; returns -1 and changes nothing when a value is too long |
| `Database.Database.GetPost` | TP2/src/database/Database.java:199-229 | a `Post` showing the row with the id, or null iff there is none |
| `Database.Database.GetAllPosts` | TP2/src/database/Database.java:236-271 | every post, in table order |
| `Database.Database.UpdatePost` | TP2/src/database/Database.java:279-303 | changes the content of the row with the id only, returning true iff it exists; too-long content gives false and no change |
| `Database.Database.DeletePost` | TP2/src/database/Database.java:308-343 | removes the post's replies and then the post, and nothing else; true iff the post existed |
| `Database.Database.CreateReply` | TP2/src/database/Database.java:351-391 | appends the row with a fresh id; -1 and no change when the post is missing or a value is too long |
| `Database.Database.GetReply` | TP2/src/database/Database.java:398-426 | a `Reply` showing the row with the id, or null iff there is none |
| `Database.Database.GetRepliesByPost` | TP2/src/database/Database.java:433-467 | the replies of the post, in table order |
| `Database.Database.GetAllReplies` | TP2/src/database/Database.java:475-507 | every reply, in table order |
| `Database.Database.UpdateReply` | TP2/src/database/Database.java:513-536 | changes the content of the row with the id only, returning true iff it exists |
| `Database.Database.DeleteReply` | TP2/src/database/Database.java:541-560 | removes the reply with the id; true iff it existed |
| `Database.Database.Register` | TP2/src/database/Database.java:617-655 | inserts iff the name is free and the values fit, otherwise leaves the table unchanged; the current user is set either way |
| `Database.Database.IsDatabaseEmpty` | TP2/src/database/Database.java:572-583 | true iff no user name exists in the table |
| `Database.Database.GetNumberOfUsers` | TP2/src/database/Database.java:594-605 | zero iff the table is empty; with unique names, the number of distinct user names; one more after a successful `register` |
| `Database.Database.LoginAdmin` | TP2/src/database/Database.java:692-705 | only an existing name logs in; with unique names, iff that name's row has the password and the admin flag |
| `Database.Database.LoginRole1` | TP2/src/database/Database.java:719-732 | the same for the newRole1 flag |
| `Database.Database.LoginRole2` | TP2/src/database/Database.java:746-758 | the same for the newRole2 flag |
| `Database.Database.DoesUserExist` | TP2/src/database/Database.java:772-787 | true iff the lookup by name finds a row, iff the name is among the stored names |
| `Database.Database.GetUserList` | TP2/src/database/Database.java:665-679 | "<Select a User>" followed by every user name in table order |
| `Database.Database.GenerateInvitationCode` | TP2/src/database/Database.java:826-839 | returns the code; when it is new, the lookups then give the email address and the role; otherwise the table is unchanged |
| `Database.Database.GetNumberOfInvitations` | TP2/src/database/Database.java:851-862 | the number of stored codes, zero iff no code is stored; one more after a successful `generateInvitationCode`, one fewer after a removal |
| `Database.Database.EmailaddressHasBeenUsed` | TP2/src/database/Database.java:876-890 | true iff some stored code gives that address back through `getEmailAddressUsingCode` |
| `Database.Database.GetRoleGivenAnInvitationCode` | TP2/src/database/Database.java:904-916 | the role stored for the code, "" when no row has it; `GenerateInvitationCode` and `RemoveInvitationAfterUse` state its round trip |
| `Database.Database.GetEmailAddressUsingCode` | TP2/src/database/Database.java:930-942 | the address stored for the code, "" when no row has it |
| `Database.Database.RemoveInvitationAfterUse` | TP2/src/database/Database.java:954-976 | the code is gone and both lookups give ""; a missing code changes nothing |
| `Database.Database.GetColumn` | TP2/src/database/Database.java:990-1214 | the five getters as written: a value only for an existing user, that user's column, and never for the preferred first name |
| `Database.Database.GetPreferredFirstName` | TP2/src/database/Database.java:1147-1161 | the preferred first name is read iff the user exists (corrected form) |
| `Database.Database.UpdateColumn` | TP2/src/database/Database.java:1019-1239 | changes nothing when a row has the name and the value is too long; otherwise sets the column of that user's rows and of the current user, which for a name no row has, whatever the length, leaves the table as it was |
| `Database.Database.GetUserAccountDetails` | TP2/src/database/Database.java:1253-1273 | true iff the user exists, and then the current user is that row |
| `Database.Database.UpdateUserRole` | TP2/src/database/Database.java:1292-1339 | sets only the named flag (true even when no row matches); any other role name gives false and no change |
| `PostsScreen.NullRoleRowListed` | TP2/src/guiPostsAdmin/ModelPostsAdmin.java:98 | a post stored with a NULL role is listed with the badge "[Unknown]" |
| `PostsScreen.PostLines` | TP2/src/guiPosts/ControllerPosts.java:118-122 | one list item per post |
| `PostsScreen.ReplyLines` | TP2/src/guiPosts/ControllerPosts.java:564-567 | one list item per reply |
| `PostsScreen.PostLinesAt` | TP2/src/guiPosts/ControllerPosts.java:118-122 | item i is the formatted row i |
| `PostsScreen.ReplyLinesAt` | TP2/src/guiPosts/ControllerPosts.java:564-567 | item i is the formatted reply i |
| `PostsScreen.PostLinesRoundTrip` | TP2/src/guiPosts/ControllerPosts.java:250 | `getID` of every listed post gives its id |
| `PostsScreen.ReplyLinesRoundTrip` | TP2/src/guiPosts/ControllerPosts.java:605 | `getID` of every listed reply gives its id |
| `PostsScreen.FormatPosts` | TP2/src/guiPosts/ControllerPosts.java:118-122 | the formatting loop yields the list items of the rows |
| `PostsScreen.FormatReplies` | TP2/src/guiPosts/ControllerPosts.java:564-567 | the same for replies |
| `PostsScreen.ListPosts` | TP2/src/guiPosts/ControllerPosts.java:109-130 | the posts list shows the Post table |
| `PostsScreen.ListReplies` | TP2/src/guiPosts/ControllerPosts.java:560-567 | the replies list shows the replies of the post |
| `PostsScreen.SelectedPostIsListed` | TP2/src/guiPosts/ControllerPosts.java:250 | a selected post item names an existing post, and that post's item is it |
| `PostsScreen.SelectedReplyIsListed` | TP2/src/guiPosts/ControllerPosts.java:605 | a selected reply item names an existing reply, and that reply's item is it |
| `PostsScreen.RefreshPosts` | TP2/src/guiPosts/ControllerPosts.java:109-130 | the list shows the Post table and the posts panel is shown |
| `PostsScreen.ViewRepliesOf` | TP2/src/guiPosts/ControllerPosts.java:544-580 | a blank selection changes nothing; otherwise the replies of the chosen post are shown |
| `PostsScreen.ShowReplies` | TP2/src/guiPosts/ControllerPosts.java:556-576 | shows the post's content and replies, and makes it the current post |
| `ControllerPosts.PostRoleTag` | TP2/src/guiPosts/ControllerPosts.java:444-454 | "Admin", else "Role1", else "Role2", else "Unknown", by flag priority |
| `ControllerPosts.ReplyRoleTag` | TP2/src/guiPosts/ControllerPosts.java:766-772 | "Role1", else "Role2", else "Unknown"; never "Admin" |
| `ControllerPosts.HomeFor` | TP2/src/guiPosts/ControllerPosts.java:182-196 | the admin home iff the admin flag is set, the Role1 home iff not admin and Role1 |
| `ControllerPosts.PerformViewPosts` | TP2/src/guiPosts/ControllerPosts.java:109-130 | the posts list is refreshed from the table |
| `ControllerPosts.PerformCreatePost` | TP2/src/guiPosts/ControllerPosts.java:151-157 | the post field is cleared and the create panel shown |
| `ControllerPosts.PerformDeletePost` | TP2/src/guiPosts/ControllerPosts.java:239-286 | deletes the post with its replies iff the current user is its author; otherwise no change; only the user's own posts ever disappear |
| `ControllerPosts.DeleteOwnPost` | TP2/src/guiPosts/ControllerPosts.java:252-285 | the ownership check and the delete for an existing post |
| `ControllerPosts.PerformEditPost` | TP2/src/guiPosts/ControllerPosts.java:329-391 | for the author only, stores the trimmed dialog text when it is non-empty and fits; only the user's own posts ever change |
| `ControllerPosts.EditOwnPost` | TP2/src/guiPosts/ControllerPosts.java:339-390 | the ownership check and the edit for an existing post |
| `ControllerPosts.ApplyPostEdit` | TP2/src/guiPosts/ControllerPosts.java:368-390 | the dialog outcome for the author: a missing or blank answer changes nothing |
| `ControllerPosts.UpdateOwnPost` | TP2/src/guiPosts/ControllerPosts.java:383-389 | the update changes posts of the author only |
| `ControllerPosts.PerformSubmitPost` | TP2/src/guiPosts/ControllerPosts.java:439-468 | exactly "" creates nothing; otherwise the post is inserted with the role tag and the list refreshed |
| `ControllerPosts.PerformCancel` | TP2/src/guiPosts/ControllerPosts.java:481-484 | back to the posts panel, nothing else changes |
| `ControllerPosts.PerformCreateReply` | TP2/src/guiPosts/ControllerPosts.java:506-512 | the reply field is cleared and the create panel shown |
| `ControllerPosts.PerformViewReplies` | TP2/src/guiPosts/ControllerPosts.java:544-580 | the replies of the selected post are shown and it becomes the current post |
| `ControllerPosts.PerformDeleteReply` | TP2/src/guiPosts/ControllerPosts.java:597-635 | deletes the reply iff the current user is its author; only the user's own replies ever disappear |
| `ControllerPosts.DeleteOwnReply` | TP2/src/guiPosts/ControllerPosts.java:607-634 | the ownership check and the delete for an existing reply |
| `ControllerPosts.PerformEditReply` | TP2/src/guiPosts/ControllerPosts.java:650-710 | for the author only, stores the trimmed text when non-empty; only the user's own replies ever change |
| `ControllerPosts.EditOwnReply` | TP2/src/guiPosts/ControllerPosts.java:660-709 | the ownership check and the edit for an existing reply |
| `ControllerPosts.ApplyReplyEdit` | TP2/src/guiPosts/ControllerPosts.java:687-709 | the dialog outcome for the author: a missing or blank answer changes nothing |
| `ControllerPosts.UpdateOwnReply` | TP2/src/guiPosts/ControllerPosts.java:702-708 | the update changes replies of the author only |
| `ControllerPosts.PerformSubmitReply` | TP2/src/guiPosts/ControllerPosts.java:758-790 | exactly "" creates nothing; otherwise the reply is attached to the current post with the reply tag |
| `ControllerPosts.PerformReplyCancel` | TP2/src/guiPosts/ControllerPosts.java:800-803 | the replies view is shown again |
| `ControllerPostsAdmin.PerformBack` | TP2/src/guiPostsAdmin/ControllerPostsAdmin.java:104-110 | always the admin home |
| `ControllerPostsAdmin.PerformViewPosts` | TP2/src/guiPostsAdmin/ControllerPostsAdmin.java:51-77 | the posts list is refreshed from the table |
| `ControllerPostsAdmin.PerformCreatePost` | TP2/src/guiPostsAdmin/ControllerPostsAdmin.java:88-94 | the post field is cleared and the create panel shown |
| `ControllerPostsAdmin.PerformDeletePost` | TP2/src/guiPostsAdmin/ControllerPostsAdmin.java:128-156 | deletes the selected post with its replies, whoever wrote it |
| `ControllerPostsAdmin.DeleteAnyPost` | TP2/src/guiPostsAdmin/ControllerPostsAdmin.java:142-155 | the unchecked delete and refresh |
| `ControllerPostsAdmin.PerformEditPost` | TP2/src/guiPostsAdmin/ControllerPostsAdmin.java:175-231 | stores the trimmed text when non-empty, whoever wrote the post |
| `ControllerPostsAdmin.EditAnyPost` | TP2/src/guiPostsAdmin/ControllerPostsAdmin.java:204-229 | the unchecked edit |
| `ControllerPostsAdmin.PerformSubmitPost` | TP2/src/guiPostsAdmin/ControllerPostsAdmin.java:252-270 | exactly "" creates nothing; otherwise the post is tagged "Admin" |
| `ControllerPostsAdmin.PerformCancel` | TP2/src/guiPostsAdmin/ControllerPostsAdmin.java:280-283 | back to the posts panel, nothing else changes |
| `ControllerPostsAdmin.PerformCreateReply` | TP2/src/guiPostsAdmin/ControllerPostsAdmin.java:295-301 | the reply field is cleared and the create panel shown |
| `ControllerPostsAdmin.PerformViewReplies` | TP2/src/guiPostsAdmin/ControllerPostsAdmin.java:319-366 | the replies of the selected post are shown and it becomes the current post |
| `ControllerPostsAdmin.PerformDeleteReply` | TP2/src/guiPostsAdmin/ControllerPostsAdmin.java:381-405 | deletes the selected reply, whoever wrote it |
| `ControllerPostsAdmin.PerformEditReply` | TP2/src/guiPostsAdmin/ControllerPostsAdmin.java:417-462 | stores the trimmed text when non-empty, whoever wrote the reply |
| `ControllerPostsAdmin.EditAnyReply` | TP2/src/guiPostsAdmin/ControllerPostsAdmin.java:437-461 | the unchecked reply edit |
| `ControllerPostsAdmin.PerformSubmitReply` | TP2/src/guiPostsAdmin/ControllerPostsAdmin.java:494-522 | exactly "" creates nothing; otherwise the reply is tagged "Admin" and attached to the current post |
| `ControllerPostsAdmin.PerformReplyCancel` | TP2/src/guiPostsAdmin/ControllerPostsAdmin.java:530-533 | the replies view is shown again |

## Left out

- The connection, the table creation statements, `dump` and `closeConnection` are JDBC plumbing. The tables are values, and each schema constraint is a clause of `Database.Database.Valid`.
- The current-user getters (`getCurrentUsername` … `getCurrentNewRole2`) only read one field of `current`, so they are not separate members.
- `generateInvitationCode` draws its code from a random UUID. The model takes the six characters as the `code` parameter.
- H2 converts the text `value` of `updateUserRole` to a BOOL column. The outcome of that conversion is the `stored` parameter; None means the conversion throws.
- `Database.Database.CreatePost`, `Database.Database.CreateReply`: H2 may draw an identity value for an INSERT that it then rejects (a value too long, a missing post). The model assumes the rejected INSERT leaves the identity where it was, so it promises consecutive ids where the program may skip some. Every id it hands out is still fresh.
- `register` lets an SQLException from a duplicate or too-long row reach its caller. The model returns false instead.
- Console output, stack traces and the alert dialogs are left out. `performLogout`, `performQuit` and JavaFX stage handling are left out too: `HomeFor` and `PerformBack` name the page to go to.
- The list views are re-read on every action. The model passes each selection as an `Option<string>` parameter; None stands for Java's null.
- A `TextInputDialog` result is an `Option<string>` parameter; None means the user cancelled it.
- `ViewPosts.java` and `ViewPostsAdmin.java` are not part of this model, beyond the screen fields the controllers write.
- A Dafny `char` is one Unicode scalar value, while a Java `char` is one UTF-16 code unit. Every column-width test counts UTF-16 units through `JavaStrings.Utf16Length`, as `String.length()` and H2's VARCHAR(n) do. The other string operations of the core (trim, split, the password scan, the emptiness tests) give the same answers under both views. There is no Unicode normalisation.
- `Integer.parseInt` is modelled for ASCII digits only. Java also accepts the other Unicode decimal digits; no formatted item contains them.
- The student model's `getID`, `formatPostForDisplay` and `formatReplyForDisplay` have the same text as the admin ones, so `ModelPosts` delegates to `ModelPostsAdmin`.
- Both controllers dereference a row without checking it for null. The student controllers do this with the post or reply that `getPost`/`getReply` returns. The admin controller does it with the post that `getPost` returns when it opens the replies view. A missing id would throw there, so the model requires that the selection name an existing row. This is the `PostSelectable` precondition of the admin reply actions.
- `ModelPostsAdmin.GetID`: a string whose second word is not an int makes Java throw. The model states this as the precondition `HasId`.
- `EntityClasses.PostCollection.GetAllPosts` and `ReplyCollection.GetAllReplies`: the copy is the sequence value itself, so "changing the copy does not change the collection" holds by the type of the result and needs no contract.
- `Size`, `IsEmpty`, the getters and `toString` of the collections and entities are plain reads, without separate contracts.
- The SELECTs of `getAllPosts`, `getRepliesByPost`, `getAllReplies` and `getUserList` have no ORDER BY. The model takes H2's scan order along the identity primary key, which is insertion order here. "Table order" in the rows above means that order.
- The schema also lets the user columns and the invitation e-mail address and role be NULL. The model gives those columns `string` values, because the pages that fill them (registration, invitations) are not part of this model. The author role of a post or reply is modelled as nullable (`None`), since the display code handles that case.

## Findings

| source | as written | input that shows it | evidently intended | confidence | as-written member | corrected member |
|---|---|---|---|---|---|---|
| TP2/src/database/Database.java:1147-1161 | `getPreferredFirstName` selects only `preferredFirstName` but reads the column `firstName`, so the read throws, the exception is caught and the method returns null | a user "ann" whose preferred first name is "Annie": the method returns null | return the stored preferred first name of an existing user | not executed | `DatabaseTables.PreferredFirstNameLost` | `DatabaseTables.ColumnRoundTrip` |
