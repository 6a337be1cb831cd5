# BlogAPIs core, modelled in Dafny

This project models the content-store core of the BlogAPIs blog backend, an
ASP.NET Core Web API over Entity Framework. It has two stores:

- a relational row store, the `BloggingContext` tables: users, categories,
  posts, post images, comments, likes and to-do tasks;
- a file store of uploaded images.

Every request handler is a pure state transition from the request and the
current state to the answer and the new state. For the blog actions the
new state is `(db, files)`; for the others it is `db`.

Modules, following the program's structure:

| file | module | models |
|---|---|---|
| `base.dfy` | `Base` | `Option`, `Result`, the exceptions that cross layers, the HTTP answers |
| `text.dfy` | `Text` | `IsNullOrWhiteSpace`, `[Required]` on strings, `ToLowerInvariant`, `TrimStart`/`TrimEnd`, decimal rendering of `int` |
| `slug.dfy` | `SlugHelper` | `SlugHelper.GenerateSlug` |
| `file_service.dfy` | `FileService` | `Path.GetExtension`, `FileService.SaveImageAsync`/`SaveImagesAsync`/`DeleteImageAsync`/`DeleteImagesAsync` |
| `image_helper.dfy` | `ImageHelper` | `ImageHelper.UploadImagesAsync` |
| `tables.dfy` | `Tables` | a table with an identity key: find, insert, replace, remove, `FirstOrDefault` |
| `schema.dfy` | `Schema` | the entities, `BloggingContext.OnModelCreating` as the invariant `Valid`, `SaveChanges`, the cascade and restrict deletes |
| `ordering.dfy` | `Ordering` | `Where`, `Skip`/`Take`, a stable sort with `OrderByDescending` keys |
| `claims.dfy` | `Claims` | the caller's claims, `[Authorize(Roles = "Admin")]`, the claims the login endpoint issues |
| `blog_controller.dfy` | `BlogController` | list, lookup by slug, create, edit and delete of posts |
| `comment_controller.dfy` | `CommentController` | list, add, edit and delete of comments |
| `like_controller.dfy` | `LikeController` | list, add and withdraw likes |
| `todo_controller.dfy` | `ToDoController` | the to-do list ordering, and add, edit, complete and delete of tasks |
| `user_controller.dfy` | `UserController` | the user listing and the role toggle |
| `category_controller.dfy` | `CategoryController` | list, add, edit and delete of categories |

How the parts of the running system are represented:

- The database provider is SQL Server. `SaveChanges` enforces the
  declared column lengths, and a negative `OFFSET` is refused by the
  server.
- The database is `Schema.Db`. Each table is a sequence of rows with
  distinct keys and the next identity value.
- `SaveChanges(proposed)` commits `proposed` iff it satisfies every unique
  index, foreign key and column length the context declares. Otherwise it
  throws the `DbUpdateException` message.
- A cascade delete removes the dependent rows explicitly. A restrict
  delete produces a state that `Valid` rejects.
- A transaction is "compute a new state; commit replaces the old one;
  rollback keeps it". The file store is outside it.
- The file store is a set of paths relative to the web root.
- `Guid.NewGuid()` is a parameter `names` (one name per file).
- `DateTime.UtcNow` is an integer parameter `now`.
- The audit logger is a parameter `audit: Option<Exception>`: `Some(e)`
  means the `LogAsync` call throws `e`.
- The authenticated caller is a `Principal`: an optional numeric `"id"`
  claim plus the list of claims.

## Model

| member | source | states |
|---|---|---|
| Text.ToLowerInvariant | Helper/SlugHelper.cs:13 | lower-cases exactly the ASCII capitals, character by character, keeping the length |
| Text.Utf16Length | Models/BlogComment.cs:8 | the .NET length of a string lies between its number of characters and twice that |
| Text.Utf16LengthExtremes | Models/BlogComment.cs:8 | the .NET length equals the character count iff no character lies outside the Basic Multilingual Plane, and twice it iff every one does |
| Text.TrimStart | Helper/SlugHelper.cs:22 | the result is a suffix of the input that does not start with the trimmed character, and everything cut off was that character |
| Text.TrimEnd | Helper/SlugHelper.cs:22 | the result is a prefix of the input that does not end with the trimmed character, and everything cut off was that character |
| Text.IntToString | Controllers/BlogCategoryController.cs:85 | a non-empty decimal rendering that starts with `-` iff the number is negative |
| Text.NatToStringValue | Controllers/BlogCategoryController.cs:85 | reading the digits back gives the number, so the rendering loses nothing |
| Text.IntToStringInjective | Controllers/BlogCategoryController.cs:85-115 | different numbers render differently |
| SlugHelper.RemoveInvalidChars | Helper/SlugHelper.cs:16 | keeps only characters of `[a-z0-9-]` and white space, never lengthening |
| SlugHelper.Hyphenate | Helper/SlugHelper.cs:19 | leaves no white space, never lengthens, and keeps the result within `[a-z0-9-]` when the input has only those and white space |
| SlugHelper.TrimHyphens | Helper/SlugHelper.cs:22 | never lengthens, leaves no hyphen at either end, and keeps the alphabet |
| SlugHelper.GenerateSlug | Helper/SlugHelper.cs:7-25 | a null, empty or white-space title gives `""`; every slug is made of `[a-z0-9-]` with no hyphen at either end, and is no longer than the title |
| SlugHelper.FixedPointIffSlug | Helper/SlugHelper.cs:13-24 | a string is its own slug iff it is a slug in the sense above |
| SlugHelper.GenerateSlugIdempotent | Helper/SlugHelper.cs:13-24 | slugging a slug changes nothing |
| SlugHelper.GenerateSlugKeepsAlphaNumerics | Helper/SlugHelper.cs:16-22 | the letters and digits of the slug are those of the lower-cased title, in the same order |
| SlugHelper.GenerateSlugExample | Helper/SlugHelper.cs:13-22 | `"Hello, World!!! 2024"` becomes `"hello-world-2024"` |
| FileService.GetExtensionSpec | Services/FileService.cs:19 | a non-empty extension is found iff it is a dot followed by at least one character, with no dot or `/` after it, at the end of the name |
| FileService.ExtensionOfName | Services/FileService.cs:19-30 | a name followed by an extension has that extension |
| FileService.ContainsIsMembership | Services/FileService.cs:18-21 | the allow-list lookup is membership |
| FileService.ValidateImage | Services/FileService.cs:15-25 | accepts iff the file is present, non-empty, with an allowed lower-cased extension and at most 5 MiB, and returns that extension; any rejection is an `ArgumentException` |
| FileService.SaveImage | Services/FileService.cs:13-39 | fails iff the file is invalid, with the validation's error and no file written; otherwise adds exactly one file and returns `/uploads/blog-images/<name><ext>` |
| FileService.SaveImageRejections | Services/FileService.cs:15-25 | the three messages, checked in the order missing or empty, then type, then size |
| FileService.FiveMebibytesAccepted | Services/FileService.cs:24-25 | exactly 5 MiB is accepted and one byte more is refused |
| FileService.UpperCaseExtensionAccepted | Services/FileService.cs:19-21 | the extension is compared after lower-casing, so `.PNG` is accepted |
| FileService.UrlToPathOfImageUrl | Services/FileService.cs:38-56 | the path recovered from a returned URL is the path the file was written to |
| FileService.DeleteImage | Services/FileService.cs:52-65 | an empty URL changes nothing; otherwise exactly the URL's file is gone, whether or not it existed |
| FileService.SaveThenDelete | Services/FileService.cs:30-62 | deleting the URL a save returned removes exactly the saved file and restores a store that lacked it |
| FileService.DeleteImageIdempotent | Services/FileService.cs:54-62 | deleting a missing file is a no-op, and deleting twice is deleting once |
| FileService.SaveImagesOutcome | Services/FileService.cs:41-50 | the batch stops at the first invalid file with its error; the files before it stay written; on success there is one URL per file, in order |
| FileService.SaveImages | Services/FileService.cs:41-50 | a successful batch returns one URL per file |
| FileService.DeleteImages | Services/FileService.cs:67-73 | removes exactly the files of the non-empty URLs |
| FileService.SaveImagesThenDelete | Services/FileService.cs:41-73 | deleting the URLs a successful batch returned removes exactly the files the batch wrote |
| ImageHelper.TranslateUploadError | Helper/ImageHelper.cs:24-27 | an `ArgumentException` becomes an `InvalidOperationException` prefixed `"Image upload failed: "`; anything else passes through unchanged |
| ImageHelper.UploadImages | Helper/ImageHelper.cs:14-28 | no files or an empty list gives an empty list and no write; otherwise the batch save's store and URLs, with its error translated |
| ImageHelper.UploadFailureIsInvalidOperation | Helper/ImageHelper.cs:21-27 | a failed upload names the first invalid file's validation message |
| ImageHelper.UploadSuccessUrls | Helper/ImageHelper.cs:21-22 | a successful upload returns one URL per file, in order, and writes exactly those files |
| Tables.Find | Controllers/ToDoController.cs:72-74 | `FindAsync`: the row with the key if there is one, else none |
| Tables.Insert | Controllers/ToDoController.cs:62-63 | `Add` then save: a row under the next identity value, keys kept distinct |
| Tables.InsertFound | Controllers/ToDoController.cs:62-63 | after an insert the new key finds the new row and every other key finds what it found before |
| Tables.RemoveIdKeys | Controllers/ToDoController.cs:135-136 | removing a key drops exactly that key |
| Tables.ReplaceFound | Controllers/ToDoController.cs:82-85 | after a replace the key finds the new value and every other key is unchanged |
| Tables.ReplaceSame | Controllers/ToDoController.cs:109-111 | replacing a row by its own value changes nothing |
| Tables.ReplaceTwice | Controllers/UserController.cs:65-74 | the second of two replaces of one key wins |
| Tables.FirstWhere | Controllers/BlogLikeController.cs:86-87 | `FirstOrDefault`: some row iff a row matches, and then the first matching row |
| Schema.EmptyDbValid | Data/BloggingContext.cs:20-101 | the empty database satisfies every constraint |
| Schema.Valid | Data/BloggingContext.cs:20-101 | keys well formed, unique slugs, user names, e-mails and (post, user) likes, every foreign key resolving, and every column within its declared length, slugs within the 450 code units of an indexed string |
| Schema.SaveChanges | Data/BloggingContext.cs:20-101 | commits exactly the proposed state iff it satisfies every constraint; otherwise throws the update exception |
| Schema.ImagesOf | Controllers/BlogController.cs:59-62 | a post's images are the image rows that point at it |
| Schema.RemoveBlog | Data/BloggingContext.cs:53-90 | deleting a post removes exactly it and its images, comments and likes |
| Schema.RemoveBlogValid | Data/BloggingContext.cs:53-90 | deleting a post from a valid state is always accepted and leaves nothing pointing at it |
| Schema.RemoveUser | Data/BloggingContext.cs:59-71 | deleting a user removes exactly the user and their comments and likes |
| Schema.RemoveUserRestrict | Data/BloggingContext.cs:45-50 | deleting a user is accepted iff they author no post |
| Schema.RemoveCategoryRestrict | Data/BloggingContext.cs:38-43 | deleting a category is accepted iff no post uses it |
| Schema.InsertBlogValid | Data/BloggingContext.cs:34-50 | a new post is accepted iff its slug is unused and fits 450 UTF-16 code units, and its author and category exist |
| Schema.ReplaceBlogValid | Data/BloggingContext.cs:34-36 | an edited post keeping its author and category is accepted iff its new slug fits 450 UTF-16 code units and is unused by the other posts |
| Schema.StoredSlugFits | Data/BloggingContext.cs:34-36 | every stored post's slug fits the indexed column |
| Schema.InsertCommentValid | Data/BloggingContext.cs:53-64 | a new comment is accepted iff its post and user exist and its text fits 500 UTF-16 code units |
| Schema.ReplaceCommentValid | Data/BloggingContext.cs:53-64 | an edited comment on the same post by the same user is accepted iff its text fits 500 UTF-16 code units |
| Schema.InsertLikeValid | Data/BloggingContext.cs:66-83 | a new like is accepted iff its post and user exist and the user has not liked the post yet |
| Schema.RemoveLeafValid | Data/BloggingContext.cs:53-83 | removing a comment, like or task never breaks a constraint |
| Schema.ToDoChangesValid | Data/BloggingContext.cs:17 | adding or replacing a task never breaks a constraint |
| Schema.ReplaceUserValid | Data/BloggingContext.cs:24-100 | a user changed in other fields than name and e-mail is accepted iff its columns fit, measured in UTF-16 code units |
| Schema.CategoryChangesValid | Data/BloggingContext.cs:38-43 | adding or replacing a category never breaks a constraint |
| Ordering.Where | Controllers/BlogController.cs:65-74 | keeps exactly the elements passing the predicate, each as often as before |
| Ordering.Window | Controllers/BlogController.cs:80-81 | `Skip(skip).Take(take)`: at most `take` consecutive elements starting at `skip` |
| Ordering.Sort | Controllers/BlogController.cs:79 | a permutation of its input |
| Ordering.SortSorted | Controllers/BlogController.cs:79 | for a total preorder the result is sorted |
| Ordering.SortedUnique | Controllers/BlogController.cs:79 | two orderings of one multiset that both have non-increasing keys are equal when no two elements share a key |
| Ordering.SelectDescendingLists | Controllers/BlogCommentController.cs:36-40 | filter then order descending: exactly the matching elements, each as often as before, keys non-increasing |
| Claims.CallerId | Controllers/BlogCommentController.cs:59 | the caller's numeric `"id"` claim, or 0 when the token has none |
| Claims.IsInRole | Controllers/UserController.cs:30 | some claim of the long role type carries the role |
| Claims.FirstClaim | Controllers/BlogCommentController.cs:91-131 | the value of the first claim of the type, if any |
| Claims.FirstRoleClaimAgreesWithIsInRole | Controllers/UserController.cs:62-63 | a first role claim `"Admin"` implies the admin role; with one role claim the two tests agree |
| Claims.IssuedPrincipal | Controllers/AuthController.cs:56-61 | a login token carries the user's id and is in the user's role |
| Claims.IssuedPrincipalRoles | Controllers/AuthController.cs:56-61 | a login token holds the role under the long claim type only, so a read of `"role"` finds nothing |
| BlogController.NormalizePageSize | Controllers/BlogController.cs:56-57 | the size is between 1 and 50: below 1 gives 10, above 50 gives 50, others are kept |
| BlogController.NormalizePage | Controllers/BlogController.cs:55 | a page below 1 becomes 1 and any other page is kept |
| BlogController.CeilDiv | Controllers/BlogController.cs:90 | the least number of whole pages that hold all items |
| BlogController.PageOffset | Controllers/BlogController.cs:80 | the intended offset `(page - 1) * pageSize`, zero exactly for page 1 |
| BlogController.GetBlogs | Controllers/BlogController.cs:48-92 | always answers; echoes the normalised page and size, holds at most a page of posts, and reports the count of all filtered posts and the ceiling page count |
| BlogController.GetBlogsWindow | Controllers/BlogController.cs:55-82 | the page is exactly the listing's slice starting at `(page - 1) * pageSize`, of `pageSize` posts or fewer at the end of the listing, each post with its view, for the tie order `Listing` fixes |
| BlogController.GetBlogsFiltered | Controllers/BlogController.cs:65-74 | every post of a page is stored and passes the category and author filters |
| BlogController.GetBlogsNewestFirst | Controllers/BlogController.cs:79 | the posts of a page are newest first |
| BlogController.GetBlogsViews | Controllers/BlogController.cs:59-62 | each entry carries its post's author, category and images |
| BlogController.ListingSelects | Controllers/BlogController.cs:65-79 | the listing holds stored posts passing the filters, newest first |
| BlogController.ListingDistinct | Controllers/BlogController.cs:65-79 | the listing shows each stored post at most once |
| BlogController.PagesAreDisjoint | Controllers/BlogController.cs:80-81 | two different requested pages of one listing never show the same post |
| BlogController.ListingIsTheOnlyOrder | Controllers/BlogController.cs:65-79 | when no two posts share a creation time, every newest-first order of the matching posts is `Listing`'s, so the page slices hold whatever order the database picks |
| BlogController.PageOffsetAsWritten | Controllers/BlogController.cs:80 | the offset as the 32-bit product the code computes |
| BlogController.GetBlogsAsWritten | Controllers/BlogController.cs:48-92 | as written: a wrapped negative offset is a 500 with the server's message; any other answer is a page of at most `pageSize` posts |
| BlogController.GetBlogsAsWrittenAgrees | Controllers/BlogController.cs:80 | whenever the offset fits in 32 bits, the code as written answers exactly as the corrected action |
| BlogController.GetBlogsAsWrittenRepeatsFirstPage | Controllers/BlogController.cs:80 | as written, page 134217729 of size 32 repeats page 1; the intended page is empty |
| BlogController.GetBlogsAsWrittenNegativeOffsetFails | Controllers/BlogController.cs:80 | as written, page 67108865 of size 32 answers 500; the corrected action answers a page |
| BlogController.FindBySlug | Controllers/BlogController.cs:97-101 | none iff no post has the slug, else a stored post with it |
| BlogController.GetBlogBySlug | Controllers/BlogController.cs:94-107 | NotFound iff no post has the slug; otherwise a stored post with that slug |
| BlogController.GetBlogBySlugFindsEachPost | Controllers/BlogController.cs:94-107 | slugs are unique, so each stored post is what its slug finds |
| BlogController.NewBlog | Controllers/BlogController.cs:122-130 | the post gets the title, content, generated slug, time, category and the caller as author |
| BlogController.CreateBlog | Controllers/BlogController.cs:115-187 | Forbid iff not an admin; a refused create keeps the rows; files are only ever added, and none when the caller, the form or the post row is refused; a saved post's slug fits its column |
| BlogController.CreateBlogAccepted | Controllers/BlogController.cs:115-187 | a create succeeds iff admin, valid form, an unused slug that fits 450 code units, existing author and category, and every file a valid image |
| BlogController.CreateBlogLongSlugRefused | Controllers/BlogController.cs:132-133 | a slug longer than its column fails the first save: 400, nothing stored and no file written |
| BlogController.LongTitleSlug | Helper/SlugHelper.cs:7-25 | a title of 451 letters is its own slug and does not fit the column |
| BlogController.CreateBlogSaved | Controllers/BlogController.cs:122-180 | a successful create stores the post under the next key, answers with the uploaded URLs, and gives the post one image row per URL |
| BlogController.CreateBlogLeaksUploads | Controllers/BlogController.cs:135-185 | a failed upload rolls the rows back and answers 400, but the files written before the bad one stay |
| BlogController.UpdateBlog | Controllers/BlogController.cs:195-282 | NotFound for a missing post and Forbid for a non-admin or non-author, and an admin's blank form is a 400, all with no file written; a refused edit keeps the rows; a saved edit's slug fits its column |
| BlogController.UpdateBlogAccepted | Controllers/BlogController.cs:212-248 | the author's edit succeeds iff the upload succeeds and the new slug fits 450 code units and no other post has it |
| BlogController.UpdateBlogSavedPost | Controllers/BlogController.cs:212-214 | a saved edit changes the title, slug and content only, and no other post |
| BlogController.UpdateBlogSavedImages | Controllers/BlogController.cs:216-248 | with new uploads the post's images become exactly the new rows and the old files are deleted; without, images and files stay |
| BlogController.UpdateBlogSlugClashLeaks | Controllers/BlogController.cs:237-280 | a slug clash rolls the rows back and answers 400, but the new files stay |
| BlogController.UpdateBlogLongSlugLeaks | Controllers/BlogController.cs:212-280 | a slug longer than its column is refused after the upload: 400, the rows roll back, the new files stay and the old ones are kept |
| BlogController.UpdateWithoutFilesKeepsImages | Controllers/BlogController.cs:216-248 | an edit with no files never touches the image rows or the files, whatever the outcome |
| BlogController.DeleteBlog | Controllers/BlogController.cs:291-319 | NotFound for a missing post and Forbid for a non-admin or non-author, both with nothing changed |
| BlogController.DeleteBlogRemoves | Controllers/BlogController.cs:304-318 | the author's delete removes the post and its dependents and exactly its files; a failing audit answers 500 after that; a second delete answers NotFound |
| CommentController.GetComments | Controllers/BlogCommentController.cs:32-43 | always answers, with no more entries than stored comments |
| CommentController.GetCommentsLists | Controllers/BlogCommentController.cs:32-43 | every comment of the post and no other, each as often as stored, newest first, each with its author |
| CommentController.AddComment | Controllers/BlogCommentController.cs:50-73 | a blank text is a 400; a success answers the new row, owned by the caller, on the requested post |
| CommentController.WideCommentRefused | Models/BlogComment.cs:8 | a comment of 300 emoji is 600 code units long, so adding it answers 500 and changes nothing |
| CommentController.AddCommentStored | Controllers/BlogCommentController.cs:54-72 | stored iff the post and caller exist and the text fits 500 UTF-16 code units; otherwise a 500 with nothing changed |
| CommentController.EditCommentAsWritten | Controllers/BlogCommentController.cs:81-113 | Forbid iff the comment exists, is not the caller's, and the first `"role"` claim is not `"Admin"` |
| CommentController.EditComment | Controllers/BlogCommentController.cs:77-113 | Forbid iff the comment exists, is not the caller's, and the caller's role claim is not `"Admin"`; NotFound iff missing |
| CommentController.EditCommentStored | Controllers/BlogCommentController.cs:92-106 | a permitted edit changes only the text and time, and is saved iff the text fits 500 UTF-16 code units |
| CommentController.EditCommentAsWrittenRefusesAdmins | Controllers/BlogCommentController.cs:77-92 | an administrator's login token is refused as written and accepted by the corrected action |
| CommentController.DeleteComment | Controllers/BlogCommentController.cs:120-152 | NotFound iff missing; Forbid iff not the author and not an admin; both change nothing |
| CommentController.DeleteCommentRemoves | Controllers/BlogCommentController.cs:134-146 | removes exactly that comment; a second delete answers NotFound |
| LikeController.GetLikes | Controllers/BlogLikeController.cs:30-41 | always answers, with no more entries than stored likes |
| LikeController.GetLikesLists | Controllers/BlogLikeController.cs:30-41 | every like of the post and no other, each as often as stored, most recent first, each with its user |
| LikeController.AddLike | Controllers/BlogLikeController.cs:49-72 | a success answers the new like, owned by the caller, with the flag and post requested |
| LikeController.AddLikeStored | Controllers/BlogLikeController.cs:53-71 | stored iff the post and caller exist and the caller has not liked the post; otherwise a 500 with nothing changed |
| LikeController.AddLikeTwiceRefused | Controllers/BlogLikeController.cs:61-62 | a second like of the same post by the same caller is refused |
| LikeController.DeleteLike | Controllers/BlogLikeController.cs:80-104 | NotFound with nothing changed iff the caller has no like on the post |
| LikeController.DeleteLikeRemoves | Controllers/BlogLikeController.cs:84-94 | removes exactly the caller's like on the post; other likes stay |
| LikeController.DeleteLikeTwiceNotFound | Controllers/BlogLikeController.cs:86-91 | a second withdrawal answers NotFound |
| ToDoController.ToDoList | Controllers/ToDoController.cs:28-42 | exactly the caller's tasks, each as often as stored |
| ToDoController.ToDoListOrdered | Controllers/ToDoController.cs:21-38 | open tasks come first, oldest first; completed tasks follow, newest first |
| ToDoController.AddToDo | Controllers/ToDoController.cs:49-66 | a success answers the row stored under the next key, and the database gains exactly that row; a failure changes nothing |
| ToDoController.AddToDoStored | Controllers/ToDoController.cs:49-66 | a new task is open, has its assigned date equal to its date, is owned by the caller, and is in the caller's list |
| ToDoController.Guard | Controllers/ToDoController.cs:72-80 | NotFound iff missing, Forbid iff someone else's task |
| ToDoController.EditToDo | Controllers/ToDoController.cs:68-88 | NotFound and Forbid as the guard says, with nothing changed |
| ToDoController.EditToDoStored | Controllers/ToDoController.cs:82-87 | the owner's edit changes the text and date only; other tasks stay |
| ToDoController.CompleteToDo | Controllers/ToDoController.cs:95-114 | NotFound and Forbid as the guard says, with nothing changed |
| ToDoController.CompleteToDoStored | Controllers/ToDoController.cs:109-113 | completing sets the flag only; other tasks stay |
| ToDoController.CompleteToDoIdempotent | Controllers/ToDoController.cs:109 | completing twice is completing once |
| ToDoController.DeleteToDo | Controllers/ToDoController.cs:121-139 | NotFound and Forbid as the guard says, with nothing changed |
| ToDoController.DeleteToDoRemoves | Controllers/ToDoController.cs:135-138 | removes exactly the task; a second delete answers NotFound |
| UserController.GetUsers | Controllers/UserController.cs:30-45 | Forbid iff not an admin; otherwise one entry per user |
| UserController.GetUsersListsEveryone | Controllers/UserController.cs:34-42 | every user's key appears, and no key twice |
| UserController.GetUsersShowsStoredFields | Controllers/UserController.cs:35-41 | each entry shows the stored name, e-mail and role, and nothing of the website or picture |
| UserController.ToggleRole | Controllers/UserController.cs:65-72 | `"User"` becomes `"Admin"`; anything else becomes `"User"` |
| UserController.ToggleRoleTwice | Controllers/UserController.cs:65-72 | toggling twice restores `"User"` or `"Admin"` |
| UserController.ModifyUserRole | Controllers/UserController.cs:52-90 | NotFound iff the user is missing; Forbid iff not an admin, or the first role claim is not `"Admin"`; both change nothing |
| UserController.ModifyUserRoleIssued | Controllers/UserController.cs:62-87 | for a login token, Forbid iff the caller's role is not `"Admin"` |
| UserController.ModifyUserRoleStored | Controllers/UserController.cs:65-83 | a permitted change flips that user's role only and is always saved |
| UserController.ModifyUserRoleTwiceRestores | Controllers/UserController.cs:65-74 | two toggles of a `"User"` or `"Admin"` restore the database |
| CategoryController.GetCategories | Controllers/BlogCategoryController.cs:28-37 | NotFound with its message iff there is no category; otherwise all of them |
| CategoryController.AddCategory | Controllers/BlogCategoryController.cs:44-65 | Forbid iff not an admin; 400 iff the name is blank; a success answers a category with exactly the given name and description |
| CategoryController.AddCategoryStored | Controllers/BlogCategoryController.cs:48-64 | stored under the next key, nothing else changes, and the listing is then non-empty |
| CategoryController.EditCategory | Controllers/BlogCategoryController.cs:73-101 | 400 before the lookup; NotFound naming the key iff missing; both change nothing |
| CategoryController.EditCategoryStored | Controllers/BlogCategoryController.cs:88-100 | replaces exactly the name and description; other categories stay |
| CategoryController.DeleteCategory | Controllers/BlogCategoryController.cs:108-129 | Forbid iff not an admin; NotFound naming the key iff missing |
| CategoryController.DeleteCategoryRestricted | Controllers/BlogCategoryController.cs:118-128 | a category used by a post is refused with nothing changed; otherwise exactly it is removed |
| CategoryController.NotFoundMessagesNameTheKey | Controllers/BlogCategoryController.cs:85-115 | different keys give different not-found messages |

## Left out

- Authentication and token issuing (`AuthController`, BCrypt, JWT
  signing): the caller's claims are an input. `Claims.IssuedPrincipal`
  records only which claims a login token carries. An `[Authorize]`
  action is modelled for an authenticated caller; the 401 for an
  anonymous one is not modelled.
- Claim type mapping: a token's `role` claim is assumed to reach the
  action under the long role claim type. That is the default inbound
  claim mapping of the JWT handler. `Program.cs` is not part of this
  model.
- `EmailService` (SMTP) and `ImageController`: I/O wrappers with no state
  of their own.
- The audit log (`ApiLogger`): its rows and their content are not
  modelled. Only whether `LogAsync` throws matters, through `audit`.
  `CreateBlog` and `UpdateBlog` catch that failure, so they take no
  `audit` parameter. The to-do actions do not log.
- Concurrency between requests, and the async machinery.
- `totalPages` uses integer ceiling division instead of a `double`
  division and `Math.Ceiling`. The two agree on every count below 2^53.
- Real paths, `WebRootPath` and `Directory.CreateDirectory`.
  `Guid.NewGuid()` is the parameter `names`. Files are assumed written
  in full, writing a name that is already present overwrites it, and
  deleting a file never fails. In the source a delete that throws does
  so after the commit: `DeleteBlog` (Controllers/BlogController.cs:309)
  then answers 500 although the rows are gone, and `UpdateBlog`
  (Controllers/BlogController.cs:241) reaches its catch and calls
  `RollbackAsync` on a transaction already committed, answering 400
  although the edit is stored.
- Text.ToLowerInvariant / SlugHelper.GenerateSlug: lower-casing covers
  the ASCII capitals only. White space is the full `char.IsWhiteSpace`
  set, and the slug keeps only ASCII characters, as in the source. A
  non-ASCII character whose invariant lower case is also non-ASCII is
  dropped either way. The one difference is the Kelvin sign U+212A:
  .NET lowers it to `k`, which the slug keeps, while here it is
  dropped.
- Schema.Valid: the e-mail confirmation token column is `varchar(100)`
  (`IsUnicode(false)`), but its limit is counted here in UTF-16 code
  units, as for the other columns. The two agree for ASCII tokens.
- Schema.Valid: unique indexes compare user names and e-mails
  exactly. SQL Server's default collation ignores case and trailing
  blanks, so it also refuses `"Ann"` next to `"ann"`, which the model
  accepts. Slugs are lower-case ASCII by construction, so their index
  behaves the same under either comparison.
- BlogController.GetBlogBySlug / FindBySlug: the lookup compares slugs
  exactly. Under SQL Server's default collation `"Hello-World"` and
  `"hello-world "` also find the post stored as `"hello-world"`; the
  model answers NotFound for them.
- BlogController.GetBlogsWindow / PagesAreDisjoint: the slice and the
  disjointness are stated for the one tie order `Listing` fixes.
  `ORDER BY CreatedAt DESC` leaves posts with equal creation times in no
  fixed order, and SQL Server may order them differently on each
  request, so across two requests such a post can appear on two pages
  or on none. When no two matching posts share a creation time,
  `ListingIsTheOnlyOrder` shows every request sees the same list.
- Identity gaps: a rolled-back insert does not consume identity
  values here. After a rolled-back create, the next create gets the
  key the rolled-back one had; SQL Server would leave a gap instead.
  Keys are compared as plain integers, and no property depends on
  their exact values beyond `nextId`.
- `Include` and `JsonIgnore`: a view carries the related rows directly.
- `Models/Blog.cs` lacks the `Slug` property that the controller and the
  unique index use. It is modelled as a stored string.
- `Models/Blog.cs` types `Images` as `BlogImage`; the model type is
  `BlogImages`, and the images are the image rows of the post.
- `DTOs/Blog/BlogSaveDto.cs` lacks the `Files` property that the
  controller reads. It is modelled as an optional list of optional files.
- `ToDoSaveEditDto` and `UserModifyDto` are not part of this model's
  sources. Their fields (`Task`, `TaskDateTime`; `UserId`) come from the
  controllers' use.
- The project file is not part of this model's sources. A non-nullable
  `string` could be implicitly required under nullable reference types,
  but only explicit `[Required]` attributes are modelled. So a blank
  category description is accepted.
- `ToDo.EntryByUserId` is not a foreign key by convention: Entity
  Framework would add a shadow `UserId` for the `User` navigation. So a
  task's owner is not constrained to an existing user.
- `EmailConfirmationToken`, `Website` and `PasswordHash` take part only
  through the column-length part of `Valid`. No modelled action writes
  them.
- Code and documentation disagree in three places; the model follows
  the code each time:
  - A failed create or edit does not remove the files already uploaded.
  - An audit failure after a saved change (except in create and edit)
    answers 500, not the documented success.
  - Editing or deleting a post needs the admin role and authorship, not
    either one.
- ToDoController.ToDoListOrdered: the sort is stable, but the database's order
  among tasks with equal keys is unspecified. So only the key order is
  stated, not the order of ties.

## Findings

| source | as written | input that shows it | evidently intended | confidence | as-written member | corrected member |
|---|---|---|---|---|---|---|
| Controllers/BlogController.cs:80 | `(page - 1) * pageSize` is an `int` product and wraps modulo 2^32 | `page = 134217729`, `pageSize = 32`: the offset wraps to 0, so the response repeats page 1. `page = 67108865`, `pageSize = 32`: the offset wraps to -2^31, which SQL Server refuses, so the response is a 500 | the offset of page `page`, which is past any listing shorter than 2^32 posts, so the page is empty | high; not executed | BlogController.GetBlogsAsWrittenRepeatsFirstPage | BlogController.GetBlogs |
| Controllers/BlogCommentController.cs:91 | the edit reads the caller's role from a claim typed `"role"` | an administrator's login token editing another user's comment: the token's role claim has the long role claim type (`Controllers/AuthController.cs:60`), so the read finds nothing and the answer is Forbid | administrators may edit any comment, as the action's documentation says and as delete does at line 131 | medium (depends on the default claim mapping); not executed | CommentController.EditCommentAsWrittenRefusesAdmins | CommentController.EditComment |
