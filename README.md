# KIIT campus navigator — a verified model of its core

The navigator shows the points of interest of a university campus on a map. Visitors
filter the map by category and select locations. Administrators add, edit, delete,
export and import locations. This project models the four pieces of the front end
that hold the logic:

- **Category and campus tables** (`LocationTypes`). The five categories are here,
  with their string keys and the descriptor table that gives each one a label, an
  icon and a colour key. The campus bounding box and centre are here too.
- **Category filter** (`CategoryFilter`). It holds the row of toggle buttons, the
  value each press hands to the page, and the button drawn as selected.
- **Map synchroniser** (`CampusMap.MapSync`). This class owns the map surface. It
  keeps an id-keyed registry of markers and rebuilds it whenever the location list
  changes. When a location is selected, it moves the view to that location and
  opens its popup.
- **Admin form controller** (`Admin.AdminPage`). This class is the create/edit
  form:
  - the submit rule, which validates the form and normalises it into a store
    payload;
  - the choice between create and update;
  - delete;
  - the bulk import of a parsed file.

  Two supporting modules sit beside it. `JsText` models `String.prototype.trim`
  and the `x || null` truthiness the form relies on. `Options` holds the option
  type.

Leaflet appears only through what the component asks of it:

- a surface handle;
- the markers drawn on it, each with its popup and the location its click selects;
- the viewport;
- whether the admin click listener is attached.

Handles are numbered by allocation counters, which stand for object identity. The
data store appears as a log of the calls the page issues (`calls`) and the toasts
it raises (`notices`). The toasts include the ones raised by the mutation hooks.
Whether the store accepts a call is a parameter: `accepted`, or `failAt` for the
import loop.

Six behaviours of the code as written are stated and proved as they are:

- **Empty id.** An editing id that is the empty string counts as "not editing",
  because `if (editingId)` tests truthiness. The page then issues a create.
- **Zero coordinates.** The import skips any entry whose latitude or longitude is
  `0`, because `loc.lat && loc.lng` tests truthiness.
- **Import count.** The import's success toast counts every array element, not the
  creates issued.
- **Null elements.** A `null` array element does not count as an entry lacking
  required fields, although such entries are meant to be skipped. Reading `name`
  from `null` throws. So the import stops at the first `null`: the entries before
  it have been created, and the error toast replaces the success toast. Elements
  that are numbers, strings or arrays have no such fields, so they are skipped.
- **Duplicate ids.** When ids repeat, the registry keeps the marker of the last
  duplicate. The earlier duplicates stay drawn but unregistered, so the next pass
  does not remove them.
- **Teardown.** Tearing the surface down does not empty the registry. Until the
  next marker pass the registry names markers that are no longer drawn, and
  following a selection calls `openPopup` on one of them.

## Model

| member | source | states |
|---|---|---|
| `LocationTypes.CategoriesEnumerated` | src/types/location.ts:1 | there are exactly five categories, each listed once |
| `LocationTypes.Key` | src/types/location.ts:1 | each category's string literal; none is empty, so a category field is always truthy |
| `LocationTypes.Config` | src/types/location.ts:27-33 | the descriptor table lookup `CATEGORY_CONFIG[c]`, tied to the table by `ConfigTotal` |
| `LocationTypes.KeyInjective` | src/types/location.ts:1 | distinct categories have distinct string keys |
| `LocationTypes.ConfigTotal` | src/types/location.ts:27-33 | the descriptor table has an entry for every category and no other key, so a lookup by category never misses |
| `LocationTypes.ConfigDescriptors` | src/types/location.ts:27-33 | each descriptor's colour key is its category's key, and the five labels are distinct |
| `LocationTypes.Position` | src/types/location.ts:1 | every category sits at a position of the category list |
| `LocationTypes.CampusGeometry` | src/types/location.ts:15-25 | the campus box is well formed (south below north, west below east) and the campus centre lies strictly inside it |
| `CategoryFilter.Buttons` | src/components/map/CategoryFilter.tsx:11-23 | the buttons are "All" followed by one button per table entry, in table order, so every category has exactly one button |
| `CategoryFilter.Press` | src/components/map/CategoryFilter.tsx:18-28 | "All" clears the filter; a category button clears the filter exactly when its category is the current one and selects its category otherwise |
| `CategoryFilter.DefaultButton` | src/components/map/CategoryFilter.tsx:16-26 | for every filter value exactly one button is drawn as "default", and it is "All" exactly when no category is selected |
| `CategoryFilter.IsDefault` | src/components/map/CategoryFilter.tsx:16-26 | the `variant` rule: "All" is drawn as "default" when nothing is selected, and a category button when its category is the selected one |
| `CategoryFilter.PressTwice` | src/components/map/CategoryFilter.tsx:28 | pressing the same category button twice restores the filter when that category was selected, and otherwise leaves the filter cleared |
| `CategoryFilter.PressedButtonBecomesDefault` | src/components/map/CategoryFilter.tsx:16-28 | after a press, the pressed button is drawn as "default" unless the press cleared its own category |
| `CampusMap.MarkerFor` | src/components/map/CampusMap.tsx:69-91 | a location's marker sits at its coordinates and is titled with its name. It shows its category's icon and label. The popup shows the description exactly when it is a non-empty string. A click selects that very location |
| `CampusMap.RegisteredKeys` | src/components/map/CampusMap.tsx:68-94 | after a marker pass, the registry's ids are exactly the ids of the location list |
| `CampusMap.Registered` | src/components/map/CampusMap.tsx:93 | the table the registry mirrors after a pass: one `Map.set` per location in list order, so a later entry overwrites an earlier one with the same id |
| `CampusMap.RegisteredStep` | src/components/map/CampusMap.tsx:68-94 | each location in turn adds its id to the registry, or overwrites the entry already there |
| `CampusMap.RegisteredOwnId` | src/components/map/CampusMap.tsx:93 | every registry entry was registered for a location that has that id |
| `CampusMap.RegisteredLastWins` | src/components/map/CampusMap.tsx:93 | when ids repeat, the entry for an id belongs to the last location with that id |
| `CampusMap.RegisteredSize` | src/components/map/CampusMap.tsx:68-94 | with unique ids, the registry has one entry per location |
| `CampusMap.MapSync.constructor` | src/components/map/CampusMap.tsx:21-22 | a fresh mount has no surface, an empty registry and nothing drawn |
| `CampusMap.MapSync.Init` | src/components/map/CampusMap.tsx:25-51 | with no container, or with a surface already there, nothing changes. Otherwise exactly one surface is created, centred on the campus at zoom 15. The click listener is attached exactly when the page is in admin mode and passed a click callback. Registry and markers are untouched |
| `CampusMap.MapSync.MapClick` | src/components/map/CampusMap.tsx:45-49 | a click reaches the callback exactly when a surface with the listener exists, and it carries the clicked coordinates |
| `CampusMap.MapSync.Teardown` | src/components/map/CampusMap.tsx:53-56 | the surface and everything drawn on it are removed and the handle is reset, so a later initialisation runs again. The registry is kept |
| `CampusMap.MapSync.Reconcile` | src/components/map/CampusMap.tsx:60-95 | without a surface, nothing changes. Otherwise every registered marker is removed. Then one fresh marker per location is drawn, in list order, with its position, title, category icon, popup and click target. The registry maps each id to a marker this pass drew for its last location. Unregistered markers stay drawn |
| `CampusMap.MapSync.RemoveRegistered` | src/components/map/CampusMap.tsx:64-65 | the markers the registry names are removed from the surface, every other marker stays unchanged, and the registry is emptied |
| `CampusMap.MapSync.DrawAll` | src/components/map/CampusMap.tsx:68-94 | one new marker per location, in list order, each registered under its location's id. Every registered marker is one this call allocated, and earlier markers are kept |
| `CampusMap.MapSync.AddMarker` | src/components/map/CampusMap.tsx:69-93 | one iteration draws a fresh marker for the location. It sets exactly the registry entry for the location's id to that marker and leaves every other entry as it was |
| `CampusMap.MapSync.MarkerClick` | src/components/map/CampusMap.tsx:89-91 | a click reaches the selection callback exactly when the marker is drawn, and it carries the location that marker was drawn for; `ClickSelectsRegistered` ties this to the registry |
| `CampusMap.ClickSelectsRegistered` | src/components/map/CampusMap.tsx:89-93 | after a marker pass, the marker registered under an id is drawn, and a click on it selects the location registered for that id, which carries that id |
| `CampusMap.ClickRegisteredMarker` | src/components/map/CampusMap.tsx:60-95 | once a surface shows a list, clicking the marker registered under one of its ids selects a location with that id: the last location in the list with that id |
| `CampusMap.MapSync.FollowSelection` | src/components/map/CampusMap.tsx:98-109 | with no surface or no selection, the view is unchanged and no popup is opened. Otherwise the view moves to the selection at zoom 17, and `openPopup` is called exactly when the selection's id is registered, on the marker registered under that id. That marker need not be drawn (see `RemountWithoutPass`) |
| `CampusMap.SelectThenClear` | src/components/map/CampusMap.tsx:25-109 | with one location drawn, selecting it calls `openPopup` on the marker drawn for that location and moves the view to it at zoom 17; clearing the selection opens nothing and leaves the view there |
| `CampusMap.RemountWithoutPass` | src/components/map/CampusMap.tsx:53-108 | after a marker pass, a teardown and a new initialisation with no marker pass between them, nothing is drawn. Yet following a selection still calls `openPopup` on the marker the earlier pass drew for that location, which is no longer on the surface |
| `JsText.Trim` | src/pages/Admin.tsx:78-89 | `trim` returns a slice of the string with only ECMAScript whitespace before and after it, and neither end of the slice is whitespace. So it is the part between the leading and trailing whitespace. It is empty exactly when the input is all whitespace |
| `JsText.TrimStart` | src/pages/Admin.tsx:78-89 | drops exactly the leading whitespace: what is cut off is all whitespace and the result does not start with whitespace |
| `JsText.TrimEnd` | src/pages/Admin.tsx:78-89 | drops exactly the trailing whitespace: what is cut off is all whitespace and the result does not end with whitespace |
| `JsText.TrimOfTrimmed` | src/pages/Admin.tsx:84-89 | `trim` leaves a string whose ends are not whitespace unchanged |
| `JsText.TrimIdempotent` | src/pages/Admin.tsx:84-89 | trimming twice is trimming once |
| `JsText.OrNull` | src/pages/Admin.tsx:88-89 | a string or-ed with `null`: the empty string is falsy and becomes absent, any other string is kept |
| `JsText.OrEmpty` | src/pages/Admin.tsx:109-110 | a string or `null` or-ed with the empty string: absent becomes the empty string |
| `JsText.TruthyOrNull` | src/pages/Admin.tsx:149-150 | an imported string or missing field or-ed with `null`: absent and empty both become absent |
| `Admin.SubmitPayload` | src/pages/Admin.tsx:83-90 | the payload carries the trimmed name, the form's coordinates and category key, and each optional text trimmed. An optional text is absent exactly when it is blank. When the name is not blank, the payload is normalised |
| `Admin.SubmitCall` | src/pages/Admin.tsx:92-96 | the page issues an update of the editing id exactly when that id is present and non-empty, and a create otherwise; the call carries the payload |
| `Admin.Outcome` | src/hooks/useLocations.ts:42-94 | the toast each mutation hook raises: the success toast of create, update or delete when the store accepts the call, its failure toast otherwise |
| `Admin.EditForm` | src/pages/Admin.tsx:104-111 | the form a location is loaded into: its own fields, with an absent description or photo URL as the empty string |
| `Admin.EditSubmitRoundTrip` | src/pages/Admin.tsx:103-114 | loading a tidy location into the form and submitting it unchanged passes validation and sends back exactly that location's own fields |
| `Admin.SubmitIdempotent` | src/pages/Admin.tsx:83-111 | loading a submitted payload back into the form and submitting again yields the same payload |
| `Admin.OptionalTextStable` | src/pages/Admin.tsx:88-89 | an optional text that went through the form once comes back out of it unchanged |
| `Admin.OptionalTextRoundTrip` | src/pages/Admin.tsx:88-110 | an optional text that is absent, or present, non-empty and trimmed, comes back unchanged through the edit form's empty-string default, `trim` and the submit's or-null |
| `Admin.AdminPage.constructor` | src/pages/Admin.tsx:29-48 | the page starts with the default form, in create mode, with the dialog closed and nothing issued |
| `Admin.AdminPage.OpenAddDialog` | src/pages/Admin.tsx:195-197 | "Add Location" resets the form, leaves edit mode and opens the dialog |
| `Admin.AdminPage.HandleMapClick` | src/pages/Admin.tsx:70-73 | a map click writes its coordinates into the form, keeps every other field and opens the dialog |
| `Admin.AdminPage.HandleEdit` | src/pages/Admin.tsx:103-114 | editing loads the location into the form, with absent texts as empty strings, enters edit mode for its id and opens the dialog |
| `Admin.AdminPage.HandleSubmit` | src/pages/Admin.tsx:75-101 | a blank name raises the name toast and changes nothing else. Otherwise exactly one create or update with the normalised payload is issued and its outcome toast is raised. Only when the store accepts the call is the form reset, edit mode left and the dialog closed |
| `Admin.AdminPage.Dispatch` | src/pages/Admin.tsx:83-100 | the one mutation of a valid submit and, if it succeeds, the reset |
| `Admin.AdminPage.HandleDelete` | src/pages/Admin.tsx:116-118 | one delete of the id, with its outcome toast; the form is untouched |
| `Admin.AdminPage.HandleImport` | src/pages/Admin.tsx:132-161 | no file does nothing. An unparsable or non-array file raises one error toast and issues nothing. An array issues the creates of its importable entries before its first `null` element, in order, up to and including a rejected one |
| `Admin.AdminPage.ImportRecords` | src/pages/Admin.tsx:142-157 | the import loop awaits each create before the next. A rejected create stops the loop with the failure toasts. A `null` element stops it with the import error toast. Otherwise the success toast counts every element |
| `Admin.Importable` | src/pages/Admin.tsx:143 | the filter `loc.name && loc.lat && loc.lng && loc.category`: the element is not `null`, and all four fields are present and truthy, so an empty string or a 0 coordinate fails |
| `Admin.ImportPayload` | src/pages/Admin.tsx:144-151 | the create payload of an importable entry: the four required fields as they are, without trimming, and each optional text dropped when absent or empty |
| `Admin.FirstNull` | src/pages/Admin.tsx:142-143 | the index of the first `null` element, or the length when there is none: every element before it is an object |
| `Admin.NullAbortsImport` | src/pages/Admin.tsx:142-156 | a `null` element ends the import with the import error toast: the entries before it are created, nothing after it is sent, and no success toast follows |
| `Admin.ExitOnNull` | src/pages/Admin.tsx:142-156 | an import that meets its first `null` before any rejection has issued the creates of the entries before it, then raised the import error toast |
| `Admin.ExitOnRejection` | src/pages/Admin.tsx:144-156 | an import whose create for an entry is rejected has issued the creates up to that entry, then raised the failure toasts |
| `Admin.ExitAtEnd` | src/pages/Admin.tsx:142-154 | an import that reaches the end of a `null`-free array with no rejection has issued every create, then raised the success toast counting every element |
| `Admin.AcceptedSingle` | src/pages/Admin.tsx:143-151 | one entry yields its create payload when it is importable and nothing otherwise |
| `Admin.Accepted` | src/pages/Admin.tsx:142-153 | the payloads an import creates when the store accepts every create: one per importable entry, in input order |
| `Admin.Reached` | src/pages/Admin.tsx:142-143 | the elements the import loop reaches: those before the first `null` |
| `Admin.IssuedCreates` | src/pages/Admin.tsx:142-156 | the creates an import issues: those of the reached entries, cut after the rejected one when a create is rejected |
| `Admin.ImportCalls` | src/pages/Admin.tsx:132-161 | the calls an import issues: nothing for no file or an unparsable file, and otherwise one create per issued payload, in order |
| `Admin.ImportNotices` | src/pages/Admin.tsx:132-161 | the toasts an import raises, in order. Nothing for no file and the error toast for an unparsable file. For an array: one success toast per accepted create; then, for a rejection, the add-failed and import-error toasts; for a `null`, the import-error toast; otherwise the success toast counting every element |
| `Admin.AcceptedAppend` | src/pages/Admin.tsx:142-153 | entries are handled in order and independently: importing a concatenation is importing its parts one after the other |
| `Admin.ZeroCoordinateSkipped` | src/pages/Admin.tsx:143 | an entry with a zero latitude or longitude is skipped, whatever surrounds it |
| `Admin.AcceptedAllImportable` | src/pages/Admin.tsx:142-153 | when every entry is importable, every entry is created, each with its own payload, in order |
| `Admin.AcceptedLength` | src/pages/Admin.tsx:142-153 | an import never creates more locations than the array has elements |
| `Admin.ReportedCountOvercounts` | src/pages/Admin.tsx:142-154 | one skipped entry makes the success toast's count larger than the number of creates |
| `Admin.ExportEntry` | src/pages/Admin.tsx:120-121 | the fields of an exported location that the import reads back; an export is importable exactly when its name is non-empty and neither coordinate is 0 |
| `Admin.ExportImportRoundTrip` | src/pages/Admin.tsx:120-154 | re-importing an export recreates every location with its own fields, in order, when none of its fields is falsy |
| `Admin.UnparsableImport` | src/pages/Admin.tsx:139-156 | an unparsable file issues no call and raises exactly the import error toast |
| `Admin.ImportAllAccepted` | src/pages/Admin.tsx:142-154 | with no rejection and no `null` element, an import issues one create per importable entry, then the success toast counting every element |
| `Admin.ImportStopsAtRejection` | src/pages/Admin.tsx:142-156 | after a rejected create, no later entry is sent and the failure toasts replace the success toast |
| `Admin.RejectedCreateWithin` | src/pages/Admin.tsx:144-156 | the create rejected while an entry is handled is a real create, and the creates up to it are exactly those of the entries up to that entry |
| `Admin.AcceptedStep` | src/pages/Admin.tsx:142-153 | one more entry adds its create payload when it is importable, and nothing otherwise |
| `Admin.RejectedCreate` | src/pages/Admin.tsx:144-156 | when the create for an entry is rejected, the creates issued so far are exactly those of the entries up to it |
| `Admin.AcceptedPrefix` | src/pages/Admin.tsx:142-153 | what the first entries create is the beginning of what the whole array creates |

## Left out

- Rendering is not modelled. That covers the JSX, the tile layer, the `divIcon`
  markup and the popup HTML. A popup is modelled as its title, label and optional
  description.
- `maxBounds` and `maxBoundsViscosity` are not modelled. The model does not clamp
  the viewport to the campus box.
- Pan animation is not modelled.
- React effect scheduling and re-render timing are not modelled. Each effect is a
  method the caller invokes, and the effect's dependency list is up to the caller.
- `CampusMap.MapSync.Init`: the click listener is captured when the surface is
  created. A later change of `isAdmin` or `onMapClick` tears the surface down and
  recreates it, and that is a `Teardown` followed by an `Init`.
- Query fetching is not modelled: the location query, its filtering by category
  and search text, and its ordering. That lives in src/hooks/useLocations.ts and
  src/pages/Index.tsx, which are not part of this model. Location lists are inputs.
- The list and card components are not part of this model. Neither are sign-in,
  sign-out and routing.
- `FileReader`, `JSON.parse`, `JSON.stringify`, the `Blob` and the download link
  are not modelled. A parsed file is an input: no file, unparsable text or a non-array value, or an array of
  entries. The exported entry is the six fields the import reads back.
- Import entries whose fields hold values of an unexpected JSON type are not
  modelled. Examples are a numeric name or a string latitude. Each field is
  either absent or of the expected type. An element is either `null` or an
  object-like value whose fields are read.
- Resetting the file input after an import is not modelled.
- A file read error is not modelled. The reader has no error handler, so such an
  error raises no toast. An unparsable file is text that fails to parse or whose
  top-level value is not an array.
- The browser's `required` check on the name field is not modelled. It blocks a
  submit with an empty name before `handleSubmit` runs, so in the page the
  name-required toast is reached only for a name made of whitespace.
- JavaScript numbers are modelled as exact reals. Rounding, `NaN` and the
  numeric formatting of exported coordinates are not modelled.
- The store's error messages are not modelled. A toast is modelled by its kind
  only, with the import count as its one parameter.
- The per-field `onChange` setters of the form are not modelled. Each one replaces
  one form field.
- Closing the dialog through `onOpenChange` is not modelled.
- The delete confirmation dialog is not modelled.
- The pending flags of the mutations are not modelled.
- Concurrent submissions are not modelled.
