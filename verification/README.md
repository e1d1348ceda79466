# Allmaps core, modelled in Dafny

Allmaps turns a topic into a learning roadmap, a directed graph of steps
drawn on a canvas, and lets users register, verify their email and save
roadmaps. This project models the four parts of it that are plain logic:

- **Path colouring of a roadmap** (`getLayoutedElements` in RoadmapCanvas.tsx,
  without the layout engine).
  - Adjacency lists and in-degrees are built from the node and edge lists.
  - A breadth-first worklist gives every reachable node a *branch* id. Roots
    get 0, 1, 2, … in node-list order. A first child keeps its parent's branch
    and every later child forks a fresh id. The first arrival at a merge point
    wins.
  - The horizontal extent of the laid-out nodes gives each node a rank factor
    in [0, 1].
  - Each node is coloured from the palette `branch mod 8`, using
    `interpolateColor`, an integer RGB blend of hex colours.
- **Password requirement checklist** (PasswordStrengthIndicator.tsx): four
  regular-expression tests, the list of met ids, a progress percentage and a
  three-way colour.
- **Authentication service** (auth.service.ts):
  - registration with an `email-timestamp` verification token;
  - `verifyEmail`, which splits the token at its last hyphen;
  - `validateUser` and `login`, over an abstract user table.
- **Difficulty badge** (`DifficultyBadge` in Sidebar.tsx): a case-insensitive
  mapping from a level string to one of four colour pairs and a caption.

Files:

| file | module | what |
|---|---|---|
| wrappers.dfy | Wrappers | `Option`, `Result` |
| text.dfy | Text | ASCII lower-casing, `lastIndexOf`, decimal rendering |
| colour.dfy | Colour | hex parsing and formatting, channel blend, `interpolateColor`, palettes |
| graph.dfy | RoadmapGraph | adjacency lists and in-degrees, against a reference reading of the edge list |
| branches.dfy | Branches | roots, the worklist as reference semantics (`Step`, `Drain`) and as a loop (`AssignBranches`) |
| styling.dfy | PathColouring | x extent, range, rank factor, per-node palette and colours |
| examples_roadmap.dfy | RoadmapExamples | fork, chain, merge and rootless-cycle graphs worked through the worklist |
| password.dfy | PasswordStrength | the four requirements, met list, progress, colour |
| auth.dfy | Auth | token, register, verifyEmail, validateUser, login |
| difficulty.dfy | Difficulty | the badge |

Paths below are relative to the repository root.

Some primitives are parameters rather than code:
- bcrypt `hash`/`compare` and the JWT signer are fields of `Auth.Crypto`.
  Lemmas that need bcrypt to accept a plain text against its own hash
  require `Auth.Sound`.
- The random bcrypt salts, `Date.now()` and whether the mail transport
  accepts the message are arguments of `Auth.Register`.
- Node centres from the layout engine are the `PathColouring.Layout` map.

## Model

| member | source | states |
|---|---|---|
| RoadmapGraph.BuildGraph | frontend/src/components/RoadmapCanvas.tsx:73-82 | exactly the listed ids are keys of both tables; each adjacency list is the node's edge targets in edge order; each in-degree counts the edges entering the node |
| RoadmapGraph.AddEdgesMeaning | frontend/src/components/RoadmapCanvas.tsx:79-82 | folding the edges one by one appends, per known node, exactly its targets and adds its in-edge count; keys never change |
| RoadmapGraph.EdgeBookkeeping | frontend/src/components/RoadmapCanvas.tsx:79-82 | an edge reaches its source's children when the source is listed, and otherwise the source has no children; the target's in-degree exists iff the target is listed, and is then positive; a dangling target is still a child |
| RoadmapGraph.TargetsMembers | frontend/src/components/RoadmapCanvas.tsx:80 | t is among v's adjacency targets iff some edge goes from v to t |
| RoadmapGraph.ChildIsTarget | frontend/src/components/RoadmapCanvas.tsx:106 | every child of a node is the target of an edge from it |
| Branches.RootItems | frontend/src/components/RoadmapCanvas.tsx:89-94 | at most one entry per listed node, and the k-th entry carries branch next + k |
| Branches.RootItemsMembers | frontend/src/components/RoadmapCanvas.tsx:89-94 | the ids queued at the start are exactly the listed nodes with in-degree 0 |
| Branches.RootItemsSplit | frontend/src/components/RoadmapCanvas.tsx:90-93 | roots are queued in node-list order: a prefix's roots come first and the later roots continue the numbering |
| Branches.RootBranch | frontend/src/components/RoadmapCanvas.tsx:89-104 | the k-th queued root, unless listed earlier, ends with branch k |
| Branches.StepEffect | frontend/src/components/RoadmapCanvas.tsx:99-111 | one dequeue removes the front entry and, for a new id, keeps the rest in order and appends its children, the first on the dequeued branch and each later one on the next fresh number; it leaves the dequeued id visited, records a new id's arrival branch, never lowers the counter, and changes nothing else for an already visited id |
| Branches.StepKeeps | frontend/src/components/RoadmapCanvas.tsx:99-111 | a dequeue keeps the loop invariant, never changes a recorded branch, and either shortens the queue or visits a new id |
| Branches.StepFresh | frontend/src/components/RoadmapCanvas.tsx:106-111 | a dequeue hands out only ids above every id in use, and no two queued entries share a branch |
| Branches.Drain | frontend/src/components/RoadmapCanvas.tsx:99-112 | running the loop to completion ends with an empty queue, the invariant intact |
| Branches.DrainKeeps | frontend/src/components/RoadmapCanvas.tsx:101-104 | once recorded, an id's branch is never overwritten |
| Branches.DrainFresh | frontend/src/components/RoadmapCanvas.tsx:106-111 | over the whole loop the counter only grows and every branch in use stays below it |
| Branches.DrainFirstArrival | frontend/src/components/RoadmapCanvas.tsx:99-104 | an unvisited id ends with the branch of its earliest queue entry; later arrivals are skipped |
| Branches.DrainCovers | frontend/src/components/RoadmapCanvas.tsx:99-112 | everything visited or queued at the start is visited at the end, and the visited set is closed under children |
| Branches.DrainWithin | frontend/src/components/RoadmapCanvas.tsx:99-112 | the loop visits nothing outside a child-closed set holding its start |
| Branches.BranchingIsReachable | frontend/src/components/RoadmapCanvas.tsx:89-112 | the ids with a branch are the roots closed under children, and lie inside every child-closed set holding the roots: exactly the ids reachable from a root |
| Branches.PushChildren | frontend/src/components/RoadmapCanvas.tsx:106-111 | the children are appended in order, the first with the parent's branch and the k-th later one with counter + k - 1; the counter grows by one per later child |
| Branches.AssignBranches | frontend/src/components/RoadmapCanvas.tsx:85-112 | the loop computes the reference `Branching`, dequeues at most #roots + #edges times, and every branch id is below that bound |
| RoadmapExamples.Fork | frontend/src/components/RoadmapCanvas.tsx:106-111 | 1→2, 1→3: nodes 1 and 2 get branch 0, node 3 gets branch 1 |
| RoadmapExamples.Chain | frontend/src/components/RoadmapCanvas.tsx:106-111 | 1→2→3 all share branch 0 |
| RoadmapExamples.Merge | frontend/src/components/RoadmapCanvas.tsx:96-104 | with roots A then X both leading to M, A gets 0, X gets 1 and M keeps A's 0 |
| RoadmapExamples.RootlessCycle | frontend/src/components/RoadmapCanvas.tsx:89-112 | on the cycle 1→2→1 nothing is queued and no branch is assigned |
| Colour.ParseColour | frontend/src/components/RoadmapCanvas.tsx:29-38 | a colour is read iff the six characters after the first '#' is dropped are hex digits, and each channel is the value of its two-digit pair |
| Colour.StripHash | frontend/src/components/RoadmapCanvas.tsx:29-30 | the first '#' is cut out and every other character kept in order; a string without '#' is unchanged |
| Colour.FormatColour | frontend/src/components/RoadmapCanvas.tsx:44 | the packed number in base 16 minus its leading 1 is '#' and two lower-case hex digits per channel |
| Colour.ParseFormatRoundTrip | frontend/src/components/RoadmapCanvas.tsx:29-44 | reading back a formatted colour gives the same channels |
| Colour.FormatParseRoundTrip | frontend/src/components/RoadmapCanvas.tsx:29-44 | a '#' plus six lower-case hex digits colour is read and re-written as itself |
| Colour.LerpChannel | frontend/src/components/RoadmapCanvas.tsx:40-42 | for a factor in [0, 1] the rounded blend lies between the two channels (so in 0..255), is c1 at 0 and c2 at 1 |
| Colour.RoundBetween | frontend/src/components/RoadmapCanvas.tsx:40-42 | Math.round of a value between two integers stays between them and fixes them |
| Colour.LerpSame | frontend/src/components/RoadmapCanvas.tsx:40-42 | blending a colour with itself leaves its channels unchanged |
| Colour.Interpolate | frontend/src/components/RoadmapCanvas.tsx:26-48 | an empty colour or NaN factor returns color1, or '#ef4444' when color1 is empty; otherwise any determined result is '#' and six lower-case hex digits, and it is determined for readable colours and a factor in [0, 1] |
| Colour.InterpolateEnds | frontend/src/components/RoadmapCanvas.tsx:40-44 | factor 0 gives the first colour and factor 1 the second, re-formatted |
| Colour.InterpolateSame | frontend/src/components/RoadmapCanvas.tsx:40-44 | a lower-case colour blended with itself is returned unchanged |
| Colour.InterpolateReadsBack | frontend/src/components/RoadmapCanvas.tsx:29-44 | the blend of two readable colours reads back as the channel-wise blend |
| Colour.InterpolateCanonical | frontend/src/components/RoadmapCanvas.tsx:29-44 | blending two canonical colours is always determined and canonical |
| Colour.PalettesCanonical | frontend/src/components/RoadmapCanvas.tsx:15-24 | there are eight palettes and every start and end is a canonical colour |
| Colour.PaletteFor | frontend/src/components/RoadmapCanvas.tsx:140 | `branch % 8` always selects one of the eight palettes |
| Colour.PaletteWraps | frontend/src/components/RoadmapCanvas.tsx:140 | branches b and b + 8 share a palette |
| PathColouring.XExtent | frontend/src/components/RoadmapCanvas.tsx:116-124 | there is no extent iff no node is laid out; otherwise min <= max and every laid-out node's x lies between them |
| PathColouring.XExtentAttained | frontend/src/components/RoadmapCanvas.tsx:118-124 | both ends of the extent are the x of some laid-out node |
| PathColouring.Range | frontend/src/components/RoadmapCanvas.tsx:125 | the range is maxX - minX when positive and 1 when the extent is a single column; never zero |
| PathColouring.RankFactorBounds | frontend/src/components/RoadmapCanvas.tsx:125-143 | for a node in the extent the rank factor is in [0, 1], 0 at the left edge and 1 at the right edge; the `range === 0` test never fires |
| PathColouring.BaseColour | frontend/src/components/RoadmapCanvas.tsx:146 | the palette start blended toward its end by half the rank factor is always determined and canonical |
| PathColouring.Tint | frontend/src/components/RoadmapCanvas.tsx:149-151 | a canonical colour blended 30% toward black or white is determined and canonical |
| PathColouring.ShadeAndBorder | frontend/src/components/RoadmapCanvas.tsx:146-151 | the gradient's dark end is no lighter than the base in any channel and the border is no darker |
| PathColouring.StyleNode | frontend/src/components/RoadmapCanvas.tsx:127-151 | a node's top-left corner is its centre minus half the 240×60 box; its branch falls back to 0; its palette is `branch % 8`'s; its base is the palette start blended toward the end by half the rank factor, its shade and border the base blended 30% toward black and white; all three are canonical |
| PathColouring.LaidOut | frontend/src/components/RoadmapCanvas.tsx:127-129 | the nodes kept are exactly the listed nodes that have a layout |
| PathColouring.LaidOutSingle | frontend/src/components/RoadmapCanvas.tsx:127-129 | a single listed node is kept exactly when it has a layout |
| PathColouring.LaidOutSplit | frontend/src/components/RoadmapCanvas.tsx:127-129 | the kept nodes of any prefix of the list come first and those of the rest follow, so with the single-node case each listed node that has a layout is kept once, in list order |
| PathColouring.StyleNodes | frontend/src/components/RoadmapCanvas.tsx:127-151 | the i-th style is for the i-th laid-out node, one per laid-out node, each by the per-node rule |
| PathColouring.StyleRoadmapCovers | frontend/src/components/RoadmapCanvas.tsx:127-129 | every listed node that has a layout is styled |
| PathColouring.StyleRoadmap | frontend/src/components/RoadmapCanvas.tsx:85-146 | each style's branch is the worklist's branch (or 0), its palette is the `branch % 8` entry, and the whole style is the per-node rule over the extent of the laid-out nodes |
| PathColouring.StyledShades | frontend/src/components/RoadmapCanvas.tsx:143-151 | for every styled node the base blend factor is in [0, 0.5], the shade is no lighter and the border no darker than the base in every channel |
| PathColouring.UnreachedIsRed | frontend/src/components/RoadmapCanvas.tsx:139-140 | a node no root reaches gets branch 0 and the red palette |
| PasswordStrength.LongRunMeaning | frontend/src/components/PasswordStrengthIndicator.tsx:11 | `/.{8,}/` holds iff eight consecutive characters are not line terminators |
| PasswordStrength.Met | frontend/src/components/PasswordStrengthIndicator.tsx:10-23 | the met list holds exactly the ids of the satisfied requirements, ascending, all in 1..4 |
| PasswordStrength.Progress | frontend/src/components/PasswordStrengthIndicator.tsx:28 | progress is 25 per met requirement, so one of 0, 25, 50, 75, 100 |
| PasswordStrength.StrengthColour | frontend/src/components/PasswordStrengthIndicator.tsx:31-35 | green exactly at 100, orange from 50 up to but not at 100, red below 50 |
| PasswordStrength.ColourBands | frontend/src/components/PasswordStrengthIndicator.tsx:28-35 | green iff all four are met, orange iff two or three, red iff at most one |
| PasswordStrength.MetMonotone | frontend/src/components/PasswordStrengthIndicator.tsx:11-23 | appending characters never un-meets a requirement |
| PasswordStrength.EmptyPassword | frontend/src/components/PasswordStrengthIndicator.tsx:11-35 | the empty password meets nothing: progress 0, red |
| PasswordStrength.StrongExample | frontend/src/components/PasswordStrengthIndicator.tsx:10-35 | "Abcdef1!" meets 1, 2, 3 and 4 and shows green |
| Text.LastIndexOf | backend/src/auth/auth.service.ts:89 | -1 iff the character is absent; otherwise the position of its last occurrence |
| Text.DecimalRoundTrip | backend/src/auth/auth.service.ts:50 | the decimal digits of the timestamp denote the timestamp |
| Auth.MakeToken | backend/src/auth/auth.service.ts:50 | the token is the email, a hyphen, and then only decimal digits that denote the timestamp |
| Auth.TokenEmail | backend/src/auth/auth.service.ts:86-92 | an empty token is 'Token is required', a token without a hyphen is 'Invalid token format', and otherwise the email is everything before the last hyphen |
| Auth.TokenRoundTrip | backend/src/auth/auth.service.ts:50-92 | the email comes back out of its token whole, hyphens in it included |
| Auth.Register | backend/src/auth/auth.service.ts:48-83 | a new email is stored with the hashed password, the hashed token, unverified and the next id, and the caller gets the created message with id and email; the plain token is put in the verification link whether or not the mail is delivered; an existing email fails and nothing changes |
| Auth.RegisterValid | backend/src/auth/auth.service.ts:54-59 | registration keeps rows under their own email with distinct ids |
| Auth.RegisterIgnoresMail | backend/src/auth/auth.service.ts:63-77 | whether the mail is sent changes neither the result nor the table; a failure is only logged |
| Auth.MarkVerified | backend/src/auth/auth.service.ts:109-112 | the row with the id becomes verified without a token; every other row is unchanged |
| Auth.VerifyEmail | backend/src/auth/auth.service.ts:85-115 | token errors are thrown; success happens iff the email is known, unverified and bcrypt accepts the token; nothing changes unless it succeeds |
| Auth.VerifyEmailReplies | backend/src/auth/auth.service.ts:94-114 | unknown email and hash mismatch say the link is invalid; a verified user is told so before any hash check; success says verified |
| Auth.VerifySuccessEffect | backend/src/auth/auth.service.ts:109-114 | on success exactly the token's user becomes verified with its token dropped, all other rows are unchanged and the table stays well formed |
| Auth.SecondVerifyFails | backend/src/auth/auth.service.ts:100-112 | after a success any later token for the same email is answered 'Email already verified.' |
| Auth.RegisterThenVerify | backend/src/auth/auth.service.ts:48-114 | with a sound bcrypt, verifying with the token put in the mail of a fresh registration succeeds and marks the user verified |
| Auth.ValidateUser | backend/src/auth/auth.service.ts:31-38 | the row minus its password iff the email is known and bcrypt accepts the password, otherwise nothing |
| Auth.LoginOfValidated | backend/src/auth/auth.service.ts:31-46 | after a successful validation, login signs over the stored email and id and shows that row's id, email and verification flag |
| Auth.RegisterThenLogin | backend/src/auth/auth.service.ts:31-59 | a fresh account passes validation with its own password and logs in unverified, with a token signed over its email and new id |
| Difficulty.Normalise | frontend/src/components/Sidebar.tsx:18 | `(level \|\| '').toLowerCase()` keeps the length, leaves no capital letter, and lower-casing it again changes nothing |
| Difficulty.SpellsMeansNormalises | frontend/src/components/Sidebar.tsx:18-25 | the lower-cased level equals a word iff the level spells that word letter by letter in any mix of case |
| Difficulty.Classify | frontend/src/components/Sidebar.tsx:14-32 | the three lower-cased levels pick their colour pairs, anything else the defaults; the caption is the level, or 'N/A' when empty |
| Difficulty.ClassifyMatchesClass | frontend/src/components/Sidebar.tsx:18-27 | the colours are those of the class the level spells letter by letter in any case |
| Difficulty.CaseInsensitive | frontend/src/components/Sidebar.tsx:18 | two spellings that differ only in case get the same colours |
| Difficulty.FormLevelsColoured | frontend/src/components/SearchHeader.tsx:81-83 | each level the search form offers gets its own non-default colour |
| Difficulty.MissingLevel | frontend/src/components/Sidebar.tsx:15-32 | a missing or empty level shows 'N/A' in the default colours |

## Left out

- The dagre layout (RoadmapCanvas.tsx:50-69) is a foreign library. Node centres are an input map, and a node without an entry is skipped, as at line 129.
- Rendering is left out: the CSS strings and style objects (the gradient, border and glow strings at lines 148-166), ReactFlow, and the edge options. The model keeps the colours that go into them.
- Numbers are exact reals, not IEEE-754 doubles, and Math.round is floor(x + 1/2).
- Colour.Interpolate returns None for a colour whose six digits after the '#' are not all hex, or for a factor outside [0, 1]. The model does not determine that output. This follows the code, which has no such fallback: parseInt yields NaN or a partial number, and the formatted string is then meaningless. No caller in the pass produces such input.
- PathColouring.XExtent returns None when no node is laid out, instead of leaving ±Infinity. No node is styled in that case.
- Node ids such as "constructor" or "__proto__" clash with the properties of the plain objects used as maps. Ids are modelled as opaque strings.
- Difficulty.Normalise: only the ASCII letters are lower-cased, not all of Unicode. For the three words compared this gives the same answer, since no non-ASCII character lower-cases to any of them.
- A password is a sequence of characters, not of UTF-16 code units, so an astral character counts once toward the eight of `.{8,}`.
- bcrypt, the JWT signer, nodemailer and Date.now are parameters (see above). Mail delivery is reduced to a log entry and the plain token put in the verification link. The verification link's URL text and the environment variables are not modelled.
- usersService.update is called by verifyEmail but users.service.ts does not define it. It is modelled as an update of the row with the given id.
- The user table is a map keyed by email, and ids come from an auto-increment counter (the Prisma schema is not part of this model). A duplicate email is modelled as the insert failing, since findOne looks users up by a unique email; the error is re-thrown as at line 81.
- Concurrency is not modelled: each service call is one atomic transition of the table. In the source, verifyEmail awaits between findOne, bcrypt.compare and update (auth.service.ts:94-112), so two overlapping verifications of one user can both pass the verified check; Auth.SecondVerifyFails holds for calls that run one after another.
- The controller wiring, routes and HTTP status codes are not part of this model. BadRequestException is the `BadRequest` response.
