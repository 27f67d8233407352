# Internet Entity Logger — a Dafny model of its core

The Internet Entity Logger is a small catalogue of things found on the
internet: websites, videos, people, tools. Each catalogued *entity* has a type,
a name, a locator, an optional description and image, a list of tags and a
dictionary of user-defined *dynamic attributes*. Each attribute record has a
key, a description, a URL, remarks and an `active` soft-delete flag. A FastAPI
server (`backend/`) stores entities and a table of tag names. A React client
(`frontend/`) has a paged and searchable home page, create and edit forms with
an attribute editor and a tag-chip input, a detail page, and a tag manager.

This project models that core as pure functions from old state to new state,
and proves what the code promises about them:

- **Data model** (`schemas.dfy`, `options.dfy`, `ordered_map.dfy`):
  - the request and response shapes, and the validation that fills in their
    defaults;
  - JSON objects and Python dicts as insertion-ordered maps (`OrderedMap`).
- **The forms** (`entity_form.dfy`, `attribute_codec.dfy`, `tag_string.dfy`):
  - the fixed fields and the attribute rows;
  - the conversion between the stored attribute dictionary and the editable
    row list;
  - the comma-separated tag string;
  - the fact that opening the edit page and saving it unedited drops every
    inactive attribute.
- **The chip editor** (`tag_input.dfy`): its key rules, suggestion filter, and
  cursor that wraps around.
- **The pages** (`home.dfy`, `tags_page.dfy`, `entity_detail.dfy`):
  - the paging rules of the home page;
  - the local list updates of the tag manager;
  - the expand and collapse state and image test of the detail page.
- **The data layer** (`crud.py`, as `crud.dfy`), using `sequences.dfy`,
  `score_sort.dfy` and `sql_like.dfy`:
  - the newest-first listing and Python slice paging;
  - search by score threshold with a stable descending sort;
  - whole-record update and delete;
  - tag synchronisation under the table's unique-name constraint;
  - the `ILIKE '%q%'` tag filter.
- **The routes** (`main.py`, as `endpoints.dfy` and `media.dfy`):
  - the 404/422/400 mapping;
  - the dispatch of the entity listing;
  - the file-name rules of the two media endpoints;
  - the outcome of the routes whose calls do not match the data layer.

Some calls between the server's files do not match, and the model follows what the code does:

- `GET /entities/` with a non-empty `q` passes `search_field` and
  `exact_match` to `search_entities`, which takes neither. The call raises
  `TypeError`, and the answer is a server error (`Endpoints.ReadEntities`).
  So the home page's search and the tag manager's entity listing never get
  results (`Endpoints.HomeSearchFails`). Search itself is still modelled as
  `crud.py` defines it (`Crud.SearchEntities`).
- `GET /tags/` passes `skip`, which `get_tags` does not take, so every request
  fails (`Endpoints.ReadTags`). The tag filter is modelled as `get_tags`
  defines it (`Crud.GetTags`).
- `PUT /tags/{id}` and `DELETE /tags/{id}` call `crud.update_tag` and
  `crud.delete_tag`, which do not exist (`Endpoints.TagRoute`). The
  annotation `schemas.TagUpdate` names a class that `schemas.py` lacks, and
  Python evaluates it when the module loads. Every route is modelled as if the
  module had loaded.
- `get_tags` defaults to 10 tags, but the route passes 100 by default.
- The create and edit pages hold the same form code. It is modelled once
  (`EntityForm`, `AttributeCodec`, `TagString`), and each row below cites
  the create page's lines. The edit page repeats them at `EditEntity.jsx:60-104`.

## Model

| member | source | states |
|---|---|---|
| Strings.Trim | frontend/src/pages/InsertEntity.jsx:57 | trimming gives the contiguous run of the input between its leading and trailing whitespace; the run is trimmed, and empty exactly when the input is all whitespace (JS `trim` and Python `strip` differ only in the whitespace set) |
| Strings.TrimSpacePrefix | frontend/src/pages/InsertEntity.jsx:57 | whitespace in front of an already trimmed text is exactly what trimming removes |
| Strings.TrimOfTrimmed | backend/crud.py:100 | trimming a trimmed string changes nothing |
| Strings.Split | frontend/src/pages/InsertEntity.jsx:57 | splitting on a character gives at least one piece, no piece holds the separator, and joining the pieces with it gives the input back |
| Strings.SplitAtFirstSep | frontend/src/pages/InsertEntity.jsx:57 | the text before the first separator is the first piece, and the rest splits on its own |
| Strings.SplitOfJoin | frontend/src/pages/EditEntity.jsx:91 | splitting undoes joining when no part holds the separator |
| Strings.Contains | backend/main.py:118 | Python's `in` on strings holds exactly when the text occurs at some position |
| Strings.Lower | backend/crud.py:82 | lower-casing keeps the length and maps each ASCII capital to its small letter |
| Options.OrEmpty | frontend/src/pages/EditEntity.jsx:37 | `x \|\| ''`: a missing text reads as the empty string, a present one as itself |
| OrderedMap.Put | frontend/src/pages/InsertEntity.jsx:63 | assigning `m[k]` keeps keys unique, adds `k` to the key set, makes `k` map to the new value and leaves every other key's value; an existing key keeps its place, a new one goes last |
| OrderedMap.Values | frontend/src/pages/EditEntity.jsx:45 | `Object.values` lists the values in the dictionary's order |
| OrderedMap.Filter | backend/crud.py:78-79 | filtering keeps exactly the entries that pass, each as often as it occurs, with keys still unique |
| OrderedMap.FilterAppend | backend/crud.py:78-79 | filtering keeps order: the filter of two parts joined is the filter of the first followed by the filter of the second |
| OrderedMap.FilterOne | backend/crud.py:78-79 | a single entry is kept exactly when it passes |
| Schemas.ValidateAttr | backend/schemas.py:4-9 | an attribute validates exactly when `key` is a sent string and `active` is not `null`; a failure is 422; a left-out or `null` text becomes `None`, a left-out `active` becomes true and a sent one is kept |
| Schemas.ValidateAttrs | backend/schemas.py:25 | a dictionary of attributes validates exactly when every value does; keys and order are kept and a failure is 422 |
| Schemas.ValidateEntity | backend/schemas.py:18-25 | a body validates exactly when type, name and locator are sent, neither `tags` nor `attributes` is `null`, and every attribute validates; a failure is 422; a left-out `tags` becomes `[]` and a left-out `attributes` `{}`; a left-out or `null` description or image becomes `None` |
| Schemas.ValidateSerialised | backend/schemas.py:18-25 | a complete body survives serialisation and validation unchanged: no default overwrites a sent value |
| AttributeCodec.Encode | frontend/src/pages/InsertEntity.jsx:60-65 | the dictionary built on submit has unique keys, stores each record under its own key, and its key set is exactly the non-empty row keys (a key of spaces is kept) |
| AttributeCodec.GetEncodeSnoc | frontend/src/pages/InsertEntity.jsx:61-64 | a further row changes the dictionary only at that row's non-empty key |
| AttributeCodec.EncodeLastWins | frontend/src/pages/InsertEntity.jsx:61-64 | with repeated keys, the dictionary holds the last row in list order that carries the key |
| AttributeCodec.EncodeAbsent | frontend/src/pages/InsertEntity.jsx:62 | a key no row carries is absent from the dictionary |
| AttributeCodec.Decode | frontend/src/pages/EditEntity.jsx:43-50 | loading keeps exactly the active records, each a value of the stored dictionary, so inactive records never reach the edit list |
| AttributeCodec.DecodeAppend | frontend/src/pages/EditEntity.jsx:45-49 | loading keeps iteration order: the rows of two parts joined are the rows of the first followed by those of the second |
| AttributeCodec.DecodeOne | frontend/src/pages/EditEntity.jsx:45-49 | a single entry gives its record exactly when the record is active |
| AttributeCodec.EncodeDecode | frontend/src/pages/EditEntity.jsx:93-98 | for a dictionary whose entries are stored under their own keys, encoding the loaded rows gives exactly the active entries with non-empty keys, in order |
| AttributeCodec.InactiveDroppedBySave | frontend/src/pages/EditEntity.jsx:43-50 | an inactive stored attribute is absent after a load and an unedited save |
| TagString.ParsePieces | frontend/src/pages/InsertEntity.jsx:57 | trimming the pieces and dropping blank ones gives no more tags than pieces, each non-empty, trimmed and comma-free |
| TagString.ParseTags | frontend/src/pages/InsertEntity.jsx:57 | every parsed tag is non-empty, trimmed and comma-free |
| TagString.ParseCommaFree | frontend/src/pages/InsertEntity.jsx:57 | a comma-free string parses to its trimmed self, or to nothing when blank |
| TagString.ParseAtComma | frontend/src/pages/InsertEntity.jsx:57 | the tags come out in their original order: the first piece's tag, then those of the rest |
| TagString.ParseDropsBlankPieces | frontend/src/pages/InsertEntity.jsx:57 | a string shaped like `"a, ,b,"` parses to `["a", "b"]` |
| TagString.ParseSpacedJoin | frontend/src/pages/EditEntity.jsx:38 | whitespace followed by good tags joined with ", " parses back to those tags |
| TagString.ParseJoin | frontend/src/pages/EditEntity.jsx:38 | with good tags, the submit-time parse of the load-time join returns the same list |
| TagString.ParseJoinParse | frontend/src/pages/EditEntity.jsx:91 | re-joining and re-parsing a parsed list changes nothing |
| EntityForm.InitialForm | frontend/src/pages/InsertEntity.jsx:13-20 | a new form has type "Website" and every other fixed field empty |
| EntityForm.SetFixed | frontend/src/pages/InsertEntity.jsx:25-31 | changing one fixed field sets that field and leaves the others |
| EntityForm.AddRow | frontend/src/pages/InsertEntity.jsx:33-38 | one blank active row with empty texts is appended and earlier rows are unchanged |
| EntityForm.RemoveRow | frontend/src/pages/InsertEntity.jsx:40-44 | `splice(i, 1)` on a valid index removes exactly row `i` and keeps the order of the others; a larger index changes nothing |
| EntityForm.ChangeRow | frontend/src/pages/InsertEntity.jsx:46-50 | only the named field of row `i` changes; the length, the other rows and the other fields stay |
| EntityForm.BuildPayload | frontend/src/pages/InsertEntity.jsx:67-71 | the body is the fixed fields, the parsed tag list and the whole encoded dictionary, not a change set: its keys are the non-empty row keys and each key holds the last row that carries it |
| EntityForm.LoadForm | frontend/src/pages/EditEntity.jsx:33-50 | loading copies the fixed fields, shows missing texts as empty, joins the tags so they parse back, and lists the decoded rows: every active stored record and nothing else |
| EntityForm.UneditedSave | frontend/src/pages/EditEntity.jsx:91-104 | for a stored entity whose tags are non-empty, trimmed and comma-free and whose records each sit under their own key, opening and saving without edits sends that entity with empty strings for missing texts and only the active, non-empty-keyed attributes |
| TagInput.Tags | frontend/src/components/TagInput.jsx:14 | a missing or empty value has no chips; any other value is parsed (split, trim, drop blanks) |
| TagInput.SuggestionsLoaded | frontend/src/components/TagInput.jsx:18-27 | a blank input shows no suggestions; otherwise the suggestions are exactly the answered tags not already chosen, and a failed request changes nothing |
| TagInput.FilterChosen | frontend/src/components/TagInput.jsx:25 | the filter keeps exactly the tags whose name is not yet a chip |
| TagInput.FilterChosenAppend | frontend/src/components/TagInput.jsx:25 | the filter keeps the answer's order: two parts joined filter to the first part's kept tags followed by the second's |
| TagInput.FilterChosenOne | frontend/src/components/TagInput.jsx:25 | a single tag is kept exactly when its name is not a chip |
| TagInput.AddTag | frontend/src/components/TagInput.jsx:37-44 | adding a tag emits the old chips and the tag joined with ", ", and clears the input and suggestions; for a non-empty, trimmed, comma-free tag the chips become the old ones plus the tag |
| TagInput.AddTagKeepsDuplicates | frontend/src/components/TagInput.jsx:37-39 | adding a tag that is already a chip adds it a second time |
| TagInput.RemoveTag | frontend/src/components/TagInput.jsx:46-50 | removing chip `i` emits the other chips joined with ", ", which parse back to the chips without it, in order |
| TagInput.InputChanged | frontend/src/components/TagInput.jsx:97-99 | typing sets the input and opens the suggestions |
| TagInput.Focused | frontend/src/components/TagInput.jsx:103 | focus opens the suggestions exactly when the input holds text |
| TagInput.Hovered | frontend/src/components/TagInput.jsx:122 | hovering a suggestion selects it |
| TagInput.Commit | frontend/src/components/TagInput.jsx:53-59 | Enter or comma is `AddTag` of the selected suggestion's name when the list is open and non-empty; otherwise it is `AddTag` of the trimmed input exactly when that is not blank, and does nothing else |
| TagInput.Backspaced | frontend/src/components/TagInput.jsx:60-61 | Backspace emits `RemoveTag` of the last chip exactly when the input is empty and there is a chip |
| TagInput.MovedDown | frontend/src/components/TagInput.jsx:62-64 | ArrowDown moves the cursor to the next suggestion, from the last back to the first, staying in range |
| TagInput.MovedUp | frontend/src/components/TagInput.jsx:65-67 | ArrowUp moves the cursor to the previous suggestion, from the first round to the last, staying in range |
| TagInput.JsRem | frontend/src/components/TagInput.jsx:64 | JavaScript's `%` takes the dividend's sign and lies strictly between `-n` and `n` |
| TagInput.KeyDown | frontend/src/components/TagInput.jsx:52-71 | each key runs its rule (Escape closes the list, other keys do nothing) and the cursor stays valid |
| TagInput.BlankInputAddsNothing | frontend/src/components/TagInput.jsx:57-59 | with the list closed or empty, a blank input adds nothing and changes nothing |
| HomePage.Initial | frontend/src/pages/Home.jsx:9-14 | the home page starts on page 0, ten per page, with no query and Next enabled |
| HomePage.Request | frontend/src/pages/Home.jsx:19-24 | the request carries the query and the page size, and its offset is the page times the page size, never negative |
| HomePage.Responded | frontend/src/pages/Home.jsx:26-32 | an answer replaces the list and sets `hasMore` exactly when the page came back full; a failure changes nothing |
| HomePage.FullPageEnablesNext | frontend/src/pages/Home.jsx:28-32 | Next is enabled exactly when the last answer held at least a page |
| HomePage.Searched | frontend/src/pages/Home.jsx:44-47 | a new query goes back to page 0 |
| HomePage.Resized | frontend/src/pages/Home.jsx:75-78 | a new page size goes back to page 0 |
| HomePage.Previous | frontend/src/pages/Home.jsx:108 | Previous goes one page back and never below 0, changing nothing else |
| HomePage.Next | frontend/src/pages/Home.jsx:118 | Next goes one page forward, changing nothing else |
| HomePage.StepValid | frontend/src/pages/Home.jsx:107-122 | every action, with disabled buttons doing nothing, keeps the page non-negative and the size positive |
| HomePage.RunValid | frontend/src/pages/Home.jsx:22 | after any sequence of actions the request offset is non-negative |
| HomePage.NextPreviousWindows | frontend/src/pages/Home.jsx:22 | Next moves the offset by exactly one page, and Previous undoes Next |
| TagsPage.TagListRequest | frontend/src/pages/TagsPage.jsx:35-37 | the tag list is requested with the search text and a limit of 100 |
| TagsPage.TagsLoaded | frontend/src/pages/TagsPage.jsx:38-40 | an answer replaces the tag list; a failure keeps it |
| TagsPage.TagEntities | frontend/src/pages/TagsPage.jsx:51-53 | a tag's entities are requested with the tag name, field "tags", exact match and limit 50 |
| TagsPage.Selected | frontend/src/pages/TagsPage.jsx:22-30 | selecting a tag requests its entities, sets the edit box to its name and leaves edit mode; clearing the selection empties the entity list |
| TagsPage.ReplaceById | frontend/src/pages/TagsPage.jsx:76 | the tags with the updated id become the updated tag; length, order and all other tags stay |
| TagsPage.RemoveById | frontend/src/pages/TagsPage.jsx:95 | no tag with the deleted id remains, and every other tag does |
| TagsPage.Renamed | frontend/src/pages/TagsPage.jsx:62-85 | a blank or unchanged name only leaves edit mode; otherwise the untrimmed name is sent exactly when confirmed, and a success replaces the tag, selects it and lists its entities again |
| TagsPage.Deleted | frontend/src/pages/TagsPage.jsx:87-101 | the delete is sent exactly when confirmed; a success removes the tag, clears the selection and empties the entity list; otherwise nothing changes |
| TagsPage.RenameReplacesOne | frontend/src/pages/TagsPage.jsx:76 | with unique ids, a rename replaces exactly the renamed tag in place and ids stay unique |
| TagsPage.DeleteRemovesOne | frontend/src/pages/TagsPage.jsx:95 | with unique ids, a delete removes exactly the deleted tag and keeps the others in order |
| EntityDetail.AfterLastDot | frontend/src/pages/EntityDetail.jsx:56 | the text after the last dot is dot-free and completes the URL |
| EntityDetail.EndsWithExtension | frontend/src/pages/EntityDetail.jsx:56 | a URL ends with a dot and dot-free `x` exactly when `x` follows its last dot |
| EntityDetail.IsImageByExtension | frontend/src/pages/EntityDetail.jsx:54-57 | a URL is an image exactly when the text after its last dot is jpeg, jpg, gif, png or webp (case-sensitive); an empty or missing URL never is |
| EntityDetail.Displayed | frontend/src/pages/EntityDetail.jsx:197 | the page lists exactly the active attributes, in the order the edit page loads them |
| EntityDetail.EmptyMessage | frontend/src/pages/EntityDetail.jsx:247 | "No dynamic attributes found." shows exactly when no attribute is active |
| EntityDetail.IsExpanded | frontend/src/pages/EntityDetail.jsx:235 | a key reads as expanded when its own entry is true, or when it has no own entry and names an `Object.prototype` member such as `constructor` |
| EntityDetail.ToggleExpand | frontend/src/pages/EntityDetail.jsx:59-64 | toggling flips how the given key reads, including an inherited name's, and leaves every other key's entry |
| EntityDetail.ToggleTwice | frontend/src/pages/EntityDetail.jsx:59-64 | toggling a key twice restores every key |
| EntityDetail.ClickMainImage | frontend/src/pages/EntityDetail.jsx:104 | clicking the main image flips its enlarged view only |
| EntityDetail.CloseMainImage | frontend/src/pages/EntityDetail.jsx:168 | clicking the enlarged image closes it and leaves the attribute images |
| EntityDetail.ImageKeys | frontend/src/pages/EntityDetail.jsx:69-76 | the keys set are exactly those of the active image attributes, all expanded |
| EntityDetail.ExpandAll | frontend/src/pages/EntityDetail.jsx:66-78 | after expand-all the keys that read as expanded are exactly the active image attributes' keys and the inherited member names, and the main image is enlarged when there is one |
| EntityDetail.CollapseAll | frontend/src/pages/EntityDetail.jsx:80-83 | collapse-all clears the main image and every own key, so only the inherited member names still read as expanded |
| EntityDetail.ExpandCollapseAll | frontend/src/pages/EntityDetail.jsx:162 | after expand-all every listed image attribute and the main image are drawn large; after collapse-all the main image is not, and an image attribute is exactly when its key names an inherited member |
| EntityDetail.ShowScrollTop | frontend/src/pages/EntityDetail.jsx:30-35 | the scroll-to-top button shows exactly beyond 300 pixels |
| EntityDetail.ScrollTopMonotone | frontend/src/pages/EntityDetail.jsx:31-35 | scrolling further down never hides the button |
| Sequences.Reverse | backend/crud.py:10 | ordering by id descending over an ascending table reads it back to front |
| Sequences.Window | backend/crud.py:10 | `OFFSET skip LIMIT limit` gives the items from `skip` on, at most `limit` of them |
| Sequences.SliceBound | backend/crud.py:67 | a slice bound counts from the end when negative, and is clamped into the sequence |
| Sequences.PySlice | backend/crud.py:67 | `s[a:b]` is the run of `s` from `a`'s bound up to `b`'s bound, empty when they cross, so at most `b - a` long |
| Sequences.PySliceIsWindow | backend/crud.py:67 | for non-negative offset and size, `[skip : skip + limit]` is `OFFSET skip LIMIT limit` |
| Sequences.WindowsTile | backend/crud.py:10 | consecutive pages join into the window of two pages |
| Sequences.FilterSeq | backend/crud.py:122 | filtering keeps exactly the items that pass |
| Sequences.FilterSeqAppend | backend/crud.py:122 | filtering keeps order: two parts joined filter to the first part's kept items followed by the second's |
| Sequences.FilterSeqOne | backend/crud.py:122 | a single item is kept exactly when it passes |
| ScoreSort.Insert | backend/crud.py:87 | insertion keeps the order descending and adds exactly one item |
| ScoreSort.SortDesc | backend/crud.py:87 | the sort is descending by score and a permutation of its input |
| ScoreSort.InsertWithScore | backend/crud.py:87 | insertion puts the new item after every item of equal score |
| ScoreSort.SortStable | backend/crud.py:87 | the sort is stable: items of equal score keep their input order |
| SqlLike.LikePrefix | backend/crud.py:122 | a literal pattern with a trailing `%` matches exactly the strings starting with it |
| SqlLike.LikeLeadingPercent | backend/crud.py:122 | a leading `%` matches the rest of the pattern against any suffix |
| SqlLike.ContainsPattern | backend/crud.py:122 | `LIKE '%q%'` for a wildcard-free `q` is the substring test |
| Crud.Find | backend/crud.py:6-7 | the lookup finds an entity with that id exactly when one exists |
| Crud.GetEntity | backend/crud.py:6-7 | `get_entity` returns the entity with that id, or `None` when there is none |
| Crud.FindAt | backend/crud.py:7 | ids are unique, so the lookup of an entity's id finds that entity |
| Crud.GetEntities | backend/crud.py:9-10 | the listing is newest first, `skip` in, at most `limit` long, with ids strictly descending |
| Crud.AddedExactly | backend/crud.py:99-102 | the names sync adds are exactly the non-blank stripped names of the list |
| Crud.AddTagName | backend/crud.py:99-112 | one name adds its stripped form when non-blank and new, keeping old rows and the unique constraint |
| Crud.SyncTags | backend/crud.py:94-112 | afterwards the table is the old rows followed by new ones, unique-named, with names the old ones plus every non-blank stripped name |
| Crud.SyncTagsAddsListed | backend/crud.py:99-108 | every listed non-blank name is in the table afterwards, and every new row carries a listed name that was not there before |
| Crud.SyncIfAny | backend/crud.py:17-18 | the `if entity.tags` guard changes nothing: the names are the old ones plus the listed ones |
| Crud.Create | backend/crud.py:12-32 | the body is stored as given under a fresh id, can be read back, and the tag table grows by the listed names |
| Crud.Update | backend/crud.py:34-53 | a missing id gives `None`; otherwise the whole record becomes `Entity(id, body)`, attributes included, the others stay, and the tags are synced |
| Crud.Delete | backend/crud.py:55-60 | a missing id gives `None`; otherwise that entity is returned and is gone, and the other entities and the tags remain |
| Crud.PyText | backend/crud.py:80 | a missing text renders as "None" in an f-string |
| Crud.AttrTextActive | backend/crud.py:77-80 | the attribute text depends only on the active attributes |
| Crud.SearchIgnoresInactive | backend/crud.py:77-80 | dropping inactive attributes leaves the searchable text unchanged |
| Crud.Scored | backend/crud.py:73-84 | the hits are exactly the entities scoring above 50, each with its score |
| Crud.SortedHits | backend/crud.py:87 | sorting the hits keeps them hits |
| Crud.RankedPage | backend/crud.py:89-92 | any slice of the ranked hits is still hits in non-increasing score order |
| Crud.ListingPage | backend/crud.py:67 | any slice of the newest-first listing is still newest first |
| Crud.SearchEntities | backend/crud.py:62-92 | results come from the table; with no query they are newest first; with one each scores above 50, in non-increasing score order; for non-negative `skip` and `limit`, at most `limit` of them |
| Crud.SearchFindsEveryHit | backend/crud.py:83-92 | every entity scoring above 50 is on a page from the start as long as the table |
| Crud.EmptySearchIsListing | backend/crud.py:65-67 | with an empty query, search and `get_entities` agree on every page |
| Crud.GetTags | backend/crud.py:114-122 | without a query the first `limit` tags; with one, only tags whose name is `ILIKE '%q%'`, at most `limit`, from the table, and every matching tag when fewer than `limit` come back |
| Crud.TagFilterIsSubstring | backend/crud.py:122 | for a query without wildcards the tag filter is a case-insensitive substring test |
| Media.SplitExt | backend/main.py:90 | `os.path.splitext` gives a dot-led, dot-free, slash-free suffix that has a name before it in the last path component, or nothing |
| Media.SplitExtOf | backend/main.py:90 | a named file with a final dot and extension yields that extension |
| Media.HiddenFileHasNoExt | backend/main.py:90 | a hidden file's name without a further dot has no extension |
| Media.UploadExtension | backend/main.py:90-92 | an upload keeps its own extension and gets ".jpg" when it has none |
| Media.MediaUrl | backend/main.py:94-100 | a stored file is served at "/media/" + name + extension |
| Media.UploadKeepsExtension | backend/main.py:90-100 | "photo.png" is stored and served as "/media/<uuid>.png" |
| Media.UploadDefaultsToJpg | backend/main.py:90-92 | a name without an extension, or a hidden file, is stored as ".jpg" |
| Media.FirstMatch | backend/main.py:114-124 | the table lookup picks the first entry whose type occurs in the content type, or the default |
| Media.ChainIsFirstMatch | backend/main.py:114-124 | the if-chain is the first match over png, jpeg, webp, gif, mp4, webm, defaulting to ".jpg" |
| Endpoints.OrNotFound | backend/main.py:66-67 | a missing result becomes 404 with the given detail; a present one is the answer |
| Endpoints.ReadEntity | backend/main.py:63-68 | reading succeeds exactly when an entity has the id, and is 404 "Entity not found" otherwise |
| Endpoints.CreateRoute | backend/main.py:28-30 | an invalid body is 422 with nothing stored; a valid one is stored and can be read back under its new id |
| Endpoints.UpdateRoute | backend/main.py:70-75 | an invalid body is 422 and an unknown id 404, both storing nothing; otherwise the stored record becomes the body, as reading shows |
| Endpoints.DeleteRoute | backend/main.py:136-141 | deleting succeeds exactly when reading would, and afterwards reading gives 404 |
| Endpoints.ReadEntities | backend/main.py:32-43 | a non-empty `q` gives a server error (the search call does not match), and no `q` gives the newest-first listing |
| Endpoints.DefaultListing | backend/main.py:37-38 | with the defaults the listing is the ten newest entities |
| Endpoints.HomePagesTile | backend/main.py:43 | the home page's consecutive pages, with no query, are adjacent windows of the newest-first list |
| Endpoints.HomeSearchFails | backend/main.py:41-42 | a home page search is answered with an error and the page keeps its list |
| Endpoints.ReadTags | backend/main.py:45-47 | every tag listing request is a server error |
| Endpoints.TagRoute | backend/main.py:49-61 | renaming or deleting a tag is a server error and changes nothing |
| Endpoints.FetchMedia | backend/main.py:102-134 | a missing or empty URL is 400 "URL is required"; a failed download is 400 "Failed to fetch media: …"; otherwise the URL of the file named by the content-type rule |
| Endpoints.UploadRoute | backend/main.py:88-100 | an upload is answered with "/media/" + uuid + its extension |

## Left out

- Rendering, hooks and effect scheduling, navigation, alerts and confirmation dialogs. A confirmation answer or a request outcome is an input to the model.
- All network requests. The client's calls are modelled only through what they send (query records, emitted values) and what comes back (an optional answer).
- Timers: the suggestion debounce, the 200 ms close on blur in `TagInput.jsx`, and the debounced `SearchBar.jsx`.
- `ImageInput.jsx`: uploading, pasting and fetching of images. The form only sees the resulting URL (`EntityForm.SetFixed` on the image field).
- The date formatting of `utils.js`, which depends on `Date` and locale formatting.
- The fuzzy score `fuzz.partial_ratio`, from a foreign library: it is a parameter `Scorer`, any function of the two lower-cased texts. The library returns a float, while `Scorer` returns an integer, so a score strictly between 50 and 51 (which passes the `> 50` threshold) cannot be represented.
- The SQLAlchemy session, commits and rollbacks, and concurrency. `sync_tags`' rollback on a unique-constraint race cannot happen in a sequential model.
- File writes, `uuid4` (the random name is a parameter), the `httpx` download (an input `Download`), CORS and the static mount.
- The database's treatment of a negative `OFFSET` or `LIMIT`: `Crud.GetEntities` and `Endpoints.ReadEntities` take `nat` offset and size.
- Crud.Scored: the query at `crud.py:63` has no `order_by`, and the model reads the entity table in ascending id order (the insertion order a plain table scan usually gives, which neither the code nor SQL guarantees). That order decides which equal-score hits come first after the stable sort.
- Crud.GetTags: the queries at `crud.py:117` and `crud.py:122` have no `order_by`, and the model reads the tag table in ascending id order, as for `Crud.Scored`. That order decides which `limit` tags come back.
- Crud.SearchEntities: the bound of at most `limit` results is stated only for non-negative `skip` and `limit`. Python slicing with a negative bound counts from the end, so `[0:-1]` returns items.
- Crud.AttrText: the `attr.get('active', True)` case of a record without `active` is not modelled, because every stored record passed validation, which fills in `active`. The `isinstance(attr, dict)` test is always true for the same reason.
- Strings.Lower: lower-casing is ASCII only. Python's `str.lower` and SQL `lower` also fold other letters.
- The `ArrowDown`/`ArrowUp` keys with no suggestions, where `% 0` yields `NaN`: `TagInput.KeyDown` requires a suggestion for them.
- JavaScript's reordering of integer-like object keys before string keys, which would change the iteration order of an attribute dictionary with keys like "2".
- AttributeCodec.Encode: a row keyed `__proto__` is not modelled. Assigning it on the plain object sets the prototype instead of an own key, so `JSON.stringify` leaves it out, while the model's key set includes it.
- Pydantic's type coercion (for example a number sent where a string is expected): the raw members are modelled as already of the field's type, with only the left-out and `null` cases distinguished.
- `schemas.TagUpdate`, `crud.update_tag` and `crud.delete_tag` do not exist in the code, so nothing about a working rename or delete of a stored tag is modelled. The client side of both is modelled (`TagsPage.Renamed`, `TagsPage.Deleted`) with the server's answer as an input.
- `ImageInput.jsx` posts to `/fetch-image/`, while the server defines `/fetch-media/`. The client component is not part of this model.
