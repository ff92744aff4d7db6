# Webcomic reader prefetch buffer, in Dafny

This project models the core of the webcomic reader's page API (`page_api.py`): the
bidirectional prefetch buffer `QueueThread`, the linkage of the page types it buffers, and the
link rewriting that `OnlinePage.request_page` applies to scraped `href`/`src` attributes.

The model is a sequential state machine:

- `QueueThread.Buffer` is an immutable record. It holds the page on screen, the forward deque
  (`next_queue`, nearest page first) and the backward deque (`prev_queue`, farthest page first,
  nearest last). It also holds both deques' `maxlen` and the `next_ready`/`prev_ready` events.
- Every `with self.block_thread:` block is one atomic transition.
  - `Next`/`Prev` model the consumer's `next()`/`prev()`. The result is one of three outcomes:
    the call returns; the call is still blocked on its readiness event; or the call raised
    `IndexError` by popping an empty deque.
  - The background loop's fetch is two steps. `SelectNext`/`FetchNext` pick and load a page.
    `CommitNext` re-validates it with `can_append_next` and appends it. `SelectPrev`,
    `FetchPrev` and `CommitPrev` do the same backward.
  - `Interleavings.Iteration` runs one loop iteration with arbitrary consumer calls before each
    of its four locked steps. `Interleavings.Session` runs any number of iterations, and
    `Interleavings.Reached` stops part-way through one more, so it covers every state the buffer
    passes through.
- The buffer is generic over the page type. `Pages.Linkage` collects what the buffer asks of a
  page: `has_next`/`has_prev`, `next()`/`prev()` and the adjacency tests `is_next`/`is_prev`.
- The chain invariant says that `prev_queue + [current] + next_queue` is one run of successive
  pages. Only keeping it through backward commits needs the adjacency tests to be symmetric,
  because `can_append_prev` uses `is_prev` (`Pages.Symmetric`).
- Local pages (`Pages.Local`, numbered files) satisfy the symmetry. `LocalQueue` proves the
  explicit form of the invariant for them: the pages ahead are numbered `c+1, c+2, …`, the
  pages behind `…, c-2, c-1`, and no page repeats.
- Online pages do not satisfy the symmetry: `Pages.OnlineAdjacencyAsymmetric` exhibits two
  pages where one test passes and the other fails.
- Link rewriting (`Links`) is string manipulation: Python's `str.split('/')` and `'/'.join`,
  the `relative` and `absolute` bases, and the `no_schema` image prefix.
  - A link that was not found (`None`) makes `relative` and `absolute` raise (`str + None`).
  - An address with fewer than two slashes makes `absolute` raise (`split_url[2]`).

Where the code departs from the usual reading of a prefetch buffer, the model follows the code:

- `prev_queue` keeps its nearest page at the right end, so pages 0 to 4 seen from page 2 give
  a backward deque `[0, 1]`, not `[1, 0]`.
- `stop()` only sets the stop event and does not wait for the thread; there is no reset operation.
- A fetch that fails is not retried by the code. In the model it is simply a commit that never
  happens.

The invariant needs both `maxlen` values to be positive (`QueueThread.WellFormed`). With a
lookahead of 0, `prev()` still sets `next_ready` although nothing fits in the forward deque,
so the following `next()` pops an empty deque. `LocalQueue.ZeroLookaheadPopsEmpty` shows
this. The caller is expected to pass positive depths.

## Model

| member | source | states |
|---|---|---|
| Pages.Local | page_api.py:23-41 | the linkage of local pages: `has_next`/`has_prev` ask whether the file numbered one above/below exists, `next()`/`prev()` build the page numbered one above/below, and `a.is_next(b)`/`a.is_prev(b)` compare page numbers |
| Pages.LocalNeighbours | page_api.py:23-41 | a local page's `next()`/`prev()` step the page number by one, and `has_next`/`has_prev` check the file of the neighbouring number (that the loaded page passes the adjacency test is `LocalQueue.LocalCoherent`) |
| Pages.LocalAdjacencyUnique | page_api.py:31-41 | for local pages, `a.is_next(b)` holds exactly when `b` is `a.next()`, and `a.is_prev(b)` exactly when `b` is `a.prev()` |
| Pages.LocalSymmetric | page_api.py:31-35 | for local pages, `a.is_next(b)` holds exactly when `b.is_prev(a)` does |
| Pages.OnlineHasNext | page_api.py:76-78 | an online page has a next page exactly when its next link is neither missing nor empty (Python truthiness) |
| Pages.OnlineHasPrev | page_api.py:72-74 | an online page has a previous page exactly when its previous link is neither missing nor empty |
| Pages.OnlineIsNext | page_api.py:83-84 | `a.is_next(b)`: the previous link of `b` equals the address of `a` |
| Pages.OnlineIsPrev | page_api.py:80-81 | `a.is_prev(b)`: the next link of `b` equals the address of `a` |
| Pages.OnlineAdjacencyAsymmetric | page_api.py:80-84 | online pages compare different link fields, so some pair passes `is_next` one way while `is_prev` fails the other way |
| Deques.PushRight | page_api.py:138-155 | `append` on a bounded deque puts the page at the right end; when the deque is full it drops the leftmost entry, and with `maxlen` 0 it keeps nothing |
| Deques.PushLeft | page_api.py:138-166 | `appendleft` on a bounded deque puts the page at the left end; when the deque is full it drops the rightmost entry |
| Deques.PushRightThenPop | page_api.py:155-168 | appending on the right and then popping the right end gives back the deque, less its leftmost entry if it was full |
| Deques.PushLeftThenPop | page_api.py:157-166 | appending on the left and then popping the left end gives back the deque, less its rightmost entry if it was full |
| QueueThread.Init | page_api.py:136-144 | a new buffer's window is just the initial page, with the given bounds; it is well-formed exactly when both bounds are positive |
| QueueThread.InitInv | page_api.py:136-144 | a new buffer with positive bounds satisfies the invariant for every linkage |
| QueueThread.Next | page_api.py:151-160 | at the last page `next()` returns the current page and changes nothing; otherwise it blocks exactly while `next_ready` is clear, raises exactly when the event is set over an empty deque, and else makes the front of the forward deque current, grows the backward deque up to its bound, sets `prev_ready` and keeps `next_ready` equal to "forward deque non-empty" |
| QueueThread.Prev | page_api.py:162-171 | the mirror image of `next()`, gated by `has_prev` and `prev_ready` |
| QueueThread.SelectNext | page_api.py:196-202 | no forward candidate exactly when the forward deque is full; otherwise the candidate is the last page of the window (the deque's tail, or the current page) |
| QueueThread.SelectPrev | page_api.py:211-217 | no backward candidate exactly when the backward deque is full; otherwise the first page of the window |
| QueueThread.FetchNext | page_api.py:196-205 | a forward page is loaded exactly when the deque has room and the window's last page has a next page; the page loaded is that page's `next()` |
| QueueThread.FetchPrev | page_api.py:211-220 | a backward page is loaded exactly when the deque has room and the window's first page has a previous page; the page loaded is that page's `prev()` |
| QueueThread.CanAppendNext | page_api.py:173-181 | a page may be appended forward exactly when the deque is not full and the page is `is_next` of the window's current last page |
| QueueThread.CanAppendPrev | page_api.py:183-191 | a page may be appended backward exactly when the deque is not full and the page is `is_prev` of the window's current first page |
| QueueThread.CommitNext | page_api.py:206-209 | a rejected page leaves the buffer unchanged; an accepted page extends the window by one page on the right and sets `next_ready`, touching nothing else |
| QueueThread.CommitPrev | page_api.py:221-224 | a rejected page leaves the buffer unchanged; an accepted page extends the window by one page on the left and sets `prev_ready`, touching nothing else |
| QueueThread.NextShiftsWindow | page_api.py:151-160 | a move forward leaves the window as it was, minus its farthest page behind when the backward deque was full |
| QueueThread.PrevShiftsWindow | page_api.py:162-171 | a move backward leaves the window as it was, minus its farthest page ahead when the forward deque was full |
| QueueThread.NextKeepsInv | page_api.py:151-160 | on a buffer satisfying the invariant, `next()` never pops an empty deque and keeps the invariant |
| QueueThread.PrevKeepsInv | page_api.py:162-171 | on a buffer satisfying the invariant, `prev()` never pops an empty deque and keeps the invariant |
| QueueThread.CommitNextKeepsInv | page_api.py:173-209 | validate-on-append keeps the invariant whatever page is offered for the forward deque |
| QueueThread.CommitPrevKeepsInv | page_api.py:183-224 | with symmetric adjacency tests, validate-on-append keeps the invariant whatever page is offered for the backward deque |
| QueueThread.NextFollowsChain | page_api.py:151-160 | the page `next()` moves to is `is_next` of the page it leaves, and with symmetric tests the page left is its `is_prev` |
| QueueThread.PrevFollowsChain | page_api.py:162-171 | the page `prev()` moves to has the page it leaves as `is_next` |
| QueueThread.NextThenPrev | page_api.py:151-171 | `next()` then `prev()`, both past their guards, restore the current page, the forward deque and `next_ready`; the backward deque comes back unless it was full, when it loses its farthest page |
| QueueThread.PrevThenNext | page_api.py:151-171 | `prev()` then `next()`, both past their guards, restore the current page, the backward deque and `prev_ready`; the forward deque comes back unless it was full, when it loses its farthest page |
| QueueThread.FreshFetchNextAppended | page_api.py:196-209 | for a coherent linkage (local pages: `LocalQueue.LocalCoherent`), with no navigation in between, the page the forward half loads is accepted and extends the window on the right |
| QueueThread.FreshFetchPrevAppended | page_api.py:211-224 | for a coherent linkage (local pages: `LocalQueue.LocalCoherent`), with no navigation in between, the page the backward half loads is accepted and extends the window on the left |
| Interleavings.Run | page_api.py:151-171 | the buffer after the consumer's `next()`/`prev()` calls made one after another (a call still waiting leaves it unchanged); the deque bounds never change |
| Interleavings.Iteration | page_api.py:193-226 | one pass of the loop in `run`: forward select, load, commit, then backward select, load, commit, with the consumer's calls before and during each half; each loaded page comes from the buffer at select time and is validated against the buffer at commit time; the bounds never change |
| Interleavings.Partial | page_api.py:193-226 | the buffer after the first stages of one loop pass, stopping after the calls before either select, while either page loads, or after either commit; from the sixth stage on it is the whole pass |
| Interleavings.Session | page_api.py:193-227 | the buffer after any number of whole loop passes, each with its own consumer calls; the bounds never change |
| Interleavings.Reached | page_api.py:136-227 | a state the buffer passes through: whole loop passes followed by part of one more |
| Interleavings.RunKeepsInv | page_api.py:151-171 | any sequence of consumer calls keeps the invariant, and none of them pops an empty deque |
| Interleavings.StaleFetchNextKeepsInv | page_api.py:196-209 | a forward page loaded before any number of consumer calls can be committed afterwards without breaking the invariant |
| Interleavings.StaleFetchPrevKeepsInv | page_api.py:211-224 | the same for a backward page, given symmetric adjacency tests |
| Interleavings.IterationKeepsInv | page_api.py:193-226 | one iteration of the background loop keeps the invariant, whatever consumer calls fall around its four locked steps |
| Interleavings.SessionKeepsInv | page_api.py:193-227 | at the end of any number of loop iterations interleaved with consumer calls the invariant holds |
| Interleavings.PartialKeepsInv | page_api.py:193-226 | every stage of one loop iteration, with any consumer calls before it, keeps the invariant: after the calls before either select, while either page loads, and after either commit |
| Interleavings.ReachedKeepsInv | page_api.py:136-227 | every state the buffer passes through, including those in the middle of a loop iteration, satisfies the invariant |
| LocalQueue.LinkedIsNumbered | page_api.py:31-41 | a run of local pages is linked by `is_next` exactly when its page numbers are consecutive |
| LocalQueue.ChainedIsNumbered | page_api.py:173-191 | for local pages the chain invariant holds exactly when the forward deque is numbered `c+1, c+2, …` and the backward deque `c-j, …, c-1` |
| LocalQueue.ChainedIsDistinct | page_api.py:136-139 | in a chained buffer of local pages the current page is in neither deque, no page is in both, and neither deque repeats a page |
| LocalQueue.LocalCoherent | page_api.py:31-41 | a local page's `next()` passes `is_next` and its `prev()` passes `is_prev` |
| LocalQueue.LocalIterationKeepsNumbering | page_api.py:193-224 | over local pages, a loop iteration with any interleaved calls keeps both deques numbered consecutively away from the current page, within bounds |
| LocalQueue.LocalSessionDistinct | page_api.py:136-227 | every state reached from a new buffer of local pages, also in the middle of a loop iteration, is numbered consecutively around the current page and repeats no page |
| LocalQueue.FivePageFill | page_api.py:193-224 | pages 0 to 4, start at 2, depth 2 each way: two quiet iterations give forward `[3, 4]` and backward `[0, 1]` |
| LocalQueue.FivePageAdvance | page_api.py:151-160 | from that state two `next()` calls reach page 4 with an empty forward deque and backward `[2, 3]` |
| LocalQueue.FivePageEnd | page_api.py:151-152 | `next()` at page 4, the last page, returns page 4 and changes nothing |
| LocalQueue.ZeroLookaheadPopsEmpty | page_api.py:162-171 | with a lookahead of 0, `prev()` sets `next_ready` over an empty forward deque, so the next `next()` pops an empty deque |
| Links.Split | page_api.py:102 | `str.split('/')` yields at least one piece and no piece contains a slash |
| Links.Join | page_api.py:102 | `'/'.join(parts)`: the pieces with one slash between neighbours; `Links.JoinSplit` and `Links.SplitJoin` show it inverts `Links.Split` |
| Links.RelativeBase | page_api.py:102 | the `relative` base `'/'.join(this_url.split('/')[:-1])`: all pieces of the address but the last, joined again (its meaning is `Links.RelativeBaseIsDirectory`) |
| Links.JoinSplit | page_api.py:102 | joining the pieces of a split with '/' gives back the string |
| Links.SplitJoin | page_api.py:102 | splitting the join of slash-free pieces gives back the pieces |
| Links.RelativeBaseIsDirectory | page_api.py:101-104 | the `relative` base is the address text before its last slash, or empty when there is no slash |
| Links.AbsoluteBase | page_api.py:105-107 | the `absolute` base raises exactly when the address has fewer than three '/'-pieces |
| Links.AbsoluteBaseIsOrigin | page_api.py:105-107 | for `scheme://host/...` the `absolute` base is the address up to its third slash (or the whole address when there is none): it is a prefix of the address followed by a slash or the end, and it splits into exactly the scheme, an empty piece and the host |
| Links.Rebase | page_api.py:103-109 | prefixing a link raises exactly when the link is `None`, and otherwise prefixes the base |
| Links.ResolveLinks | page_api.py:101-109 | other formats leave both links as found; `relative` raises exactly when a link is missing; `absolute` raises exactly when a link is missing or the address is too short |
| Links.Show | page_api.py:113 | Python's f-string formatting of an optional string: `None` prints as "None", any string as itself |
| Links.ImageSource | page_api.py:111-113 | `no_schema` prefixes `https:` to the image address (a missing one prints as `None`); other formats keep it as found |
| Links.FindAttribute | page_api.py:118-124 | the attribute is found exactly when some element matched and the first one carries it, and then it is that element's value |
| Links.FirstMatchDecides | page_api.py:118-124 | elements matched after the first never change what `find_attribute` returns |
| Links.RequestPage | page_api.py:92-116 | loading a page succeeds exactly when its links resolve; the page keeps the requested address, its previous and next links are the resolved links (found links kept as found under any other format), and the image address is the rewritten `src` |
| Links.RelativeLinksShareDirectory | page_api.py:101-104 | under `relative`, both found links are prefixed with the page address's text before its last slash, and are unchanged when the address has no slash |
| Links.AbsoluteLinksShareOrigin | page_api.py:105-109 | under `absolute`, for `scheme://host/...` both found links are prefixed with the page's scheme and host |
| Links.AbsolutePagesNeverEnd | page_api.py:72-78 | under `absolute` the base contains "//", so every page that loads has a non-empty next and previous link; `has_next`/`has_prev` are then always true and the end-of-sequence guard of `next()`/`prev()` (page_api.py:152, 163) never fires |
| Links.MissingLinkOutcome | page_api.py:98-109 | a missing next link makes `relative`/`absolute` raise, and under any other format it leaves the page without a next page |

## Left out

- HTTP requests, lxml parsing, XPath evaluation and image bytes (`requests.get`, `html.fromstring`, `request_image`, `load_img`) are foreign calls. The scraped attributes are inputs of `Links.RequestPage`, and `find_attribute` receives the matched elements as attribute maps.
- Filesystem access: `os.path.exists` becomes a fixed predicate `present` on page numbers. The files are assumed not to change while the buffer runs.
- The `folder` of a local page is left out. Every page of one buffer lives in the same folder, and `is_next`/`is_prev` ignore it.
- `save_string` is left out. It only feeds bookmark persistence.
- Threads, the lock, event blocking, the one-second `stop_event.wait` tick and `stop()` are left out. Steps are atomic transitions and interleavings are explicit sequences. Liveness, meaning that a blocked `next()` eventually returns, is not modelled.
- A `next()`/`prev()` that raises while loading a page ends the background thread in the code. In the model such a fetch is a commit that never happens. Nothing is claimed about progress afterwards.
- `OnlinePage.next()`/`prev()` load a page over the network, so online pages get no `Linkage`. Only their adjacency tests and link rewriting are modelled.
- A `maxlen` of `None` (an unbounded deque) is not modelled. Bounds are natural numbers.
- QueueThread.NextKeepsInv: claimed only for buffers whose two bounds are positive, because with a bound of 0 the code itself can pop an empty deque (`LocalQueue.ZeroLookaheadPopsEmpty`).
- QueueThread.CommitPrevKeepsInv: assumes symmetric adjacency tests. Online pages do not have them, so nothing is claimed for a buffer of online pages.
- `html_page.py` is an older copy of the same page and queue logic, without the `has_next`/`has_prev` guards. `webcomic_reader.py` is the Tkinter user interface. `helpers/pdf_to_pages.py` converts PDF files to images. None of the three is part of this model.
