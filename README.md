# User profiles directory: a Dafny model of its state logic

The application fetches a list of user profiles, shows them as cards, and lets the
operator like, edit or delete profiles in client-side memory. This project models
the logic under its user interface:

- `UserTypes` (`user_types.dfy`): the `User`, `Address` and `Company` records. The
  optional `liked` field is an `Option<bool>`. `IsLiked` is its JavaScript truthiness,
  so an absent value is falsy.
- `Api` (`api.dfy`): `fetchUsers` shaping a fetch outcome into a user list. Every
  record gets `liked: false`, and any failure becomes an error, never a partial list.
  Also `generateAvatarUrl` and a reader that inverts it.
- `EditUserModal` (`edit_user_modal.dfy`): the form prefill, the field rules of
  `validateFields`, the merge of the validated values back into the record, and
  which callback (`onSave`, `onCancel` or none) each button produces.
- `App` (`app.dfy`): the pure updaters behind the handlers (toggle-by-id,
  replace-by-id, remove-by-id, find-by-id), and the class `AppState`. Its four
  fields are the component's state cells (`users`, `loading`, `editModalVisible`,
  `editingUser`). It has one method per handler and keeps the invariant
  "the modal is visible exactly while a user is being edited".

Ids are not enforced unique anywhere in the program. So each property of the
updaters is stated for every record whose id matches. The one-record readings
(one record changes, one record is removed) are separate lemmas that assume unique
ids. Other lemmas show that every updater keeps unique ids unique.

## Model

| member | source | states |
|---|---|---|
| `Api.Unliked` | src/services/api.ts:11-12 | the shaped record has `liked == false` and every other field of the received record |
| `Api.MarkAllUnliked` | src/services/api.ts:10-13 | the post-fetch map keeps length and order; every record has `liked == false` and every other field equal to the received record's |
| `Api.MarkAllUnlikedConcat` | src/services/api.ts:10 | the post-fetch map distributes over concatenation, so the received order is kept |
| `Api.MarkAllUnlikedIdempotent` | src/services/api.ts:10-13 | applying the post-fetch map twice is the same as applying it once |
| `Api.FetchUsers` | src/services/api.ts:3-18 | success exactly when the call answered with an ok status and a readable body; a non-ok status fails with `StatusNotOk`; a rejected request or an unreadable body fails with `Thrown`; on success the list is the received one with `liked` false |
| `Api.FetchedNoneLiked` | src/services/api.ts:12 | after a successful fetch every record has a defined `liked` and none is liked |
| `Api.AvatarUrl` | src/services/api.ts:20-22 | the URL is the fixed prefix, then the username, then the fixed suffix; its length is the sum of the three |
| `Api.UsernameOf` | src/services/api.ts:21 | every URL the reader accepts is the avatar URL of the username it reads, so the reader inverts the template |
| `Api.AvatarUrlRoundTrip` | src/services/api.ts:21 | reading the username back out of an avatar URL gives the username |
| `Api.AvatarUrlInjective` | src/services/api.ts:21 | distinct usernames get distinct avatar URLs |
| `EditUserModal.FormOf` | src/components/EditUserModal.tsx:22-28 | the form shows the user's name, email, phone, website and company name |
| `EditUserModal.Prefill` | src/components/EditUserModal.tsx:20-30 | the form is filled only when a user is given and the modal is visible, with the user's name, email, phone, website and company name |
| `EditUserModal.ValidateFields` | src/components/EditUserModal.tsx:74-121 | validation succeeds exactly when all five fields are non-empty and the email passes the email rule; on failure the error list is non-empty and names exactly the failing fields |
| `EditUserModal.Merge` | src/components/EditUserModal.tsx:36-45 | the merged record shows the submitted values in the five form fields and keeps the original `id`, `username`, `address` and `liked` |
| `EditUserModal.HandleSave` | src/components/EditUserModal.tsx:32-52 | `onSave` is called exactly when a user is set and validation passes, with the merged record; a saved record has non-empty fields and an accepted email; `onCancel` is never produced |
| `EditUserModal.HandleCancel` | src/components/EditUserModal.tsx:54-57 | cancelling produces `onCancel` and never `onSave` |
| `EditUserModal.MergeKeeps` | src/components/EditUserModal.tsx:36-37 | the merged record keeps the original `id`, `username`, `address` and `liked` |
| `EditUserModal.FormOfMerge` | src/components/EditUserModal.tsx:38-44 | the merged record's name, email, phone, website and company name are the submitted values |
| `EditUserModal.MergeFormOf` | src/components/EditUserModal.tsx:22-45 | merging a user with its own prefilled values gives back the user, because a company has only a name |
| `EditUserModal.MergeInjective` | src/components/EditUserModal.tsx:36-45 | different submitted values give different merged records |
| `EditUserModal.InvalidNeverSaved` | src/components/EditUserModal.tsx:79-93 | an empty name or an email the email rule rejects never leads to `onSave` |
| `App.Toggled` | src/App.tsx:39 | a toggled record has `liked` set to the negated truthiness of the old value, so an absent value becomes true; no other field changes |
| `App.ToggleById` | src/App.tsx:37-41 | liking keeps length and order; records with another id are identical; each matching record's `liked` becomes the negated truthiness, and no other field changes |
| `App.ToggleTwice` | src/App.tsx:39 | liking twice restores other records exactly and each matching record's truthiness, with `liked` now defined (absent becomes true, then false) |
| `App.ToggleUnique` | src/App.tsx:37-41 | with unique ids, liking changes only the one record with the id and flips its truthiness |
| `App.ToggleAbsent` | src/App.tsx:37-41 | liking an id that no record has changes nothing |
| `App.TogglePreservesUniqueIds` | src/App.tsx:37-41 | liking keeps unique ids unique |
| `App.ReplaceById` | src/App.tsx:50-54 | saving keeps length; every record with the saved id is replaced in place by the saved record; the others are untouched |
| `App.ReplaceAbsent` | src/App.tsx:50-54 | saving a record whose id is absent, e.g. deleted meanwhile, changes nothing |
| `App.ReplaceIdempotent` | src/App.tsx:50-54 | saving the same record twice is the same as saving it once |
| `App.ReplacePreservesUniqueIds` | src/App.tsx:50-54 | saving keeps unique ids unique |
| `App.SaveMergeReadBack` | src/App.tsx:49-57 | saving the editor's merge of a record and reading that record back shows the submitted form values and the old id, username, address and `liked` |
| `App.RemoveById` | src/App.tsx:70 | the remaining records are exactly those without the id; each of them keeps its number of occurrences |
| `App.RemoveConcat` | src/App.tsx:70 | deleting distributes over concatenation, so the kept records keep their relative order |
| `App.RemoveAbsent` | src/App.tsx:70 | deleting an id that no record has changes nothing |
| `App.RemoveIdempotent` | src/App.tsx:70 | confirming the same delete twice is the same as confirming it once |
| `App.RemoveUnique` | src/App.tsx:70 | with unique ids, deleting a present id removes exactly one record, an absent one none, and ids stay unique |
| `App.FindById` | src/App.tsx:60 | the lookup finds nothing exactly when no record has the id; otherwise it returns the first record with the id |
| `App.AppState.constructor` | src/App.tsx:15-18 | initially no users, loading, modal hidden, no user being edited |
| `App.AppState.LoadUsers` | src/App.tsx:24-34 | on success `users` is the fetched list; on failure it is unchanged and the error is shown; `loading` is false afterwards |
| `App.AppState.HandleLike` | src/App.tsx:36-42 | `users` becomes the toggle of the old list; nothing else changes |
| `App.AppState.HandleEdit` | src/App.tsx:44-47 | opens the edit session on the given user and shows the modal; the list is unchanged |
| `App.AppState.HandleSaveUser` | src/App.tsx:49-57 | `users` becomes the replace-by-id of the old list; the modal is hidden and no user is being edited |
| `App.AppState.HandleDelete` | src/App.tsx:59-68 | changes no state; the request carries the id, plus the name of the first record with that id when there is one |
| `App.AppState.ConfirmDelete` | src/App.tsx:69-72 | `users` becomes the remove-by-id of the old list; nothing else changes |
| `App.AppState.HandleModalCancel` | src/App.tsx:76-79 | hides the modal and ends the edit session; the list is unchanged |
| `App.AppState.ModalSave` | src/App.tsx:128-133 | the modal's save on the current edit session: on `onSave` the list is replaced by id and the session closes; otherwise no state cell changes |
| `App.AppState.ModalCancel` | src/App.tsx:128-133 | the modal's cancel produces `onCancel` and closes the session without touching the list |

Every method of `AppState` also keeps `Valid()`: `editModalVisible` holds exactly when
`editingUser` is set.

## Left out

- The HTTP request, `response.json()` and `async`/`await` (src/services/api.ts:5-9) are I/O. Their outcome is the input `FetchAttempt`. The JSON body is assumed to have the `User` shape; no runtime shape check is modelled.
- `id` is a JavaScript `number`; the model uses unbounded integers, so fractional ids and NaN are not modelled.
- The `message` toasts and `console.error` are side effects. Only the load-failure toast is reflected, as the `errorShown` result of `LoadUsers`.
- The antd `Modal.confirm` dialog is presentation. Confirming is modelled by calling `ConfirmDelete` with the request; dismissing is modelled by not calling it.
- React timing is not modelled: `useEffect` scheduling, the stale `users` closure that `handleDelete` reads for the prompt, and any overlap between an in-flight load and other handlers. The handlers are modelled as sequential steps.
- The email pattern of antd's `type: 'email'` rule is in a library outside this repository. It is the parameter `isEmail`. The `required` rule is modelled as "non-empty string", with no whitespace trimming.
- A like or a delete affects every record with the id. `App.ToggleUnique` and `App.RemoveUnique` give the one-record reading under unique ids.
- EditUserModal.HandleCancel: the `form.resetFields()` call is not modelled, because the antd form store is left out.
- All JSX rendering and layout in src/App.tsx:81-135, src/components/UserCard.tsx and src/components/LoadingSpinner.tsx is presentation and is not part of this model.
