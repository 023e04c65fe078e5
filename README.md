# new_media in Dafny

This project models the bookkeeping core of the new_media news site and its admin CMS. The site is a Next.js application whose state lives in in-memory Zustand stores. The model covers:

- **The category hierarchy store** (`lib/stores/categoryStore.ts`): a flat list of categories linked by `parentId`. It supports create, update, delete with child promotion, the tree view, the breadcrumb path, the cycle check that guards moving a category, global and per-parent reordering, slug uniqueness, the delete guard for `uncategorized` and the slug generator. The store invariant is that ids are unique and every parent chain ends. Accepted moves, creations and deletions are proved to keep it.
- **The admin screens that use the hierarchy**: the category tree's levels, flattening, expand set and drag-reorder; the category form's parent picker and validation; and the categories page's filters, statistics, delete-and-reassign and activation toggle.
- **Article administration**: the admin UI store (selection, filters, page reset), the list and calendar page filters, the articles table's select-all, sort state and stable sort, the calendar's drop-to-reschedule and same-day selection, the by-category status groups, and the article store.
- **Author administration**: the author store (soft delete and restore, search, contributor statistics), the author form's slug generator and validation, the authors page filters, and the fresh-id computation of the new-author page (with `parseInt` written out).
- **The article editor and tag manager**: the auto-slug, submit validation, article assembly and reset, and adding and removing tags.
- **Small helpers**: the dotted-key translation lookup, the relative-time qualifier stripper, admin sidebar route matching, the mock-data and election lookups, election filtering, sorting and aggregation, and the article selections of the home page, the dashboard and the sidebar.

Each store is a `class` whose `seq` fields its methods replace, as Zustand's `set` does by shallow merge. Code that only computes is written as functions, with lemmas relating them to independent specifications. Dates are integers (milliseconds since the epoch). The local calendar day of a date is a function parameter. Ids and times that the source takes from the clock or `Math.random` are parameters. `confirm()` answers are boolean inputs.

The shared modules are:

- `Wrappers`: `Option` and `Result`.
- `Seqs`: filtering, counting, the stable insertion sort standing in for `Array.prototype.sort`, taking a prefix, and splicing.
- `Text`: JavaScript's whitespace set, `trim`, `toLowerCase` on ASCII, and `includes`.
- `Types`: the records of `lib/types.ts`.

## Model

| member | source | states |
|---|---|---|
| CategoryHierarchy.FindById | lib/stores/categoryStore.ts:110-112 | `getCategoryById` returns a listed category carrying the id, and nothing exactly when no category has that id |
| CategoryHierarchy.FindOwnId | lib/stores/categoryStore.ts:110-112 | with unique ids, looking up a listed category's own id yields that category |
| CategoryHierarchy.SameIdsSameFind | lib/stores/categoryStore.ts:110-112 | two lists with the same ids at the same positions find at the same position, so a lookup survives edits that keep ids |
| CategoryHierarchy.ParentOf | lib/stores/categoryStore.ts:168-170 | one upward step finds a listed category whose id is the child's non-empty `parentId` |
| CategoryHierarchy.LineageUnfold | lib/stores/categoryStore.ts:165-171 | the walk up starts at the category and continues with its parent's walk, or stops when no parent is found |
| CategoryHierarchy.LineageSuffix | lib/stores/categoryStore.ts:165-171 | every tail of a walk is the walk from its first element |
| CategoryHierarchy.LineageLinks | lib/stores/categoryStore.ts:165-171 | consecutive entries of the walk are child and parent, and the last entry has no findable parent |
| CategoryHierarchy.LineageNoReturn | lib/stores/categoryStore.ts:204-207 | on a terminating walk a category never comes back further up its own chain |
| CategoryHierarchy.LineageInList | lib/stores/categoryStore.ts:165-171 | every category met on the walk belongs to the list |
| CategoryHierarchy.SameShapeValid | lib/stores/categoryStore.ts:79-87 | edits that keep every `id` and `parentId` keep unique ids and an acyclic hierarchy |
| CategoryHierarchy.AncestorStep | lib/stores/categoryStore.ts:204-207 | an id names a category or one of its ancestors exactly when it names the category itself or its parent's chain |
| CategoryHierarchy.DistinctIds | lib/stores/categoryStore.ts:110-112 | with unique ids, two different listed categories have different ids |
| CategoryHierarchy.FilterUnique | lib/stores/categoryStore.ts:98-99 | filtering the list keeps its ids unique |
| CategorySlug.CollapseRunsChars | lib/stores/categoryStore.ts:287-288 | after replacing runs of a character class by one character, every character is that replacement or a kept character outside the class |
| CategorySlug.CollapseRunsNoDouble | lib/stores/categoryStore.ts:288 | after `/-+/g` becomes `-`, no two hyphens are neighbours |
| CategorySlug.CollapseRunsIdentity | lib/stores/categoryStore.ts:287-288 | a string with no neighbouring class characters, whose class characters are all the replacement, is unchanged |
| CategorySlug.GenerateSlugIsSlug | lib/stores/categoryStore.ts:282-289 | every generated slug is made of `[a-z0-9_-]` only and holds no "--" |
| CategorySlug.TrimmedLowerHasNoUpper | lib/stores/categoryStore.ts:284-285 | lower-casing then trimming leaves no upper-case letter |
| CategorySlug.KeptSlugChars | lib/stores/categoryStore.ts:286 | after `/[^\w\s-]/g` is removed from lower-case text, every non-space character is a slug character |
| CategorySlug.SlugTrimLower | lib/stores/categoryStore.ts:284-285 | lower-casing and trimming leave a normal-form slug unchanged |
| CategorySlug.SlugFixpoint | lib/stores/categoryStore.ts:282-289 | a normal-form slug is its own slug |
| CategorySlug.GenerateSlugIdempotent | lib/stores/categoryStore.ts:282-289 | generating a slug from a generated slug changes nothing |
| CategorySlug.SameTrimSameSlug | lib/stores/categoryStore.ts:283-285 | two names with the same lower-cased, trimmed text get the same slug |
| CategorySlug.GenerateSlugKeepsOuterHyphens | lib/stores/categoryStore.ts:282-289 | hyphens at the ends of the trimmed name survive: " -a- " gives "-a-" |
| CategorySlug.IsSlugUnique | lib/stores/categoryStore.ts:248-251 | true exactly when every category using the slug is the excluded id |
| CategorySlug.CreateKeepsSlugsUnique | lib/stores/categoryStore.ts:60-76 | appending a category whose slug `isSlugUnique` accepted keeps all slugs distinct |
| CategorySlug.UpdateKeepsSlugsUnique | lib/stores/categoryStore.ts:79-87 | with unique ids, an update whose new slug `isSlugUnique(slug, id)` accepted keeps all slugs distinct |
| CategoryEdits.Merge | lib/stores/categoryStore.ts:83 | `{ ...cat, ...updates, updatedAt }`: the patch's fields win, absent ones keep the record's, and the time is always the new one |
| CategoryEdits.NewCategory | lib/stores/categoryStore.ts:64-69 | the created record carries the payload with the generated id and both timestamps set to the creation time |
| CategoryEdits.Updated | lib/stores/categoryStore.ts:79-87 | the list keeps its length and each entry is merged exactly when its id is the target |
| CategoryEdits.Reparent | lib/stores/categoryStore.ts:97-103 | `deleteCategory`'s map: every child of the deleted `id` takes `newParent`, every other record is kept; the length and the ids are kept |
| CategoryEdits.UpdatedIds | lib/stores/categoryStore.ts:79-87 | an update that does not rename the record keeps every id in place |
| CategoryEdits.UpdateUnknownIsNoOp | lib/stores/categoryStore.ts:79-87 | updating an id no category has leaves the list as it was |
| CategoryEdits.DeletedShape | lib/stores/categoryStore.ts:90-107 | deleting an unknown id changes nothing; otherwise the remaining ids are the others in order and none is the deleted id; no record keeps the deleted id as parent unless the deleted record was its own parent, in which case the delete only removes it |
| CategoryEdits.FindAfterUpdate | lib/stores/categoryStore.ts:79-87 | after an update each lookup finds the merged version of what it found before |
| CategoryEdits.ParentAfterUpdate | lib/stores/categoryStore.ts:79-87 | after an update a record's parent is the merged version of its parent under the new `parentId` |
| CategoryEdits.UpdatePreservesAcyclic | lib/stores/categoryStore.ts:79-87 | an update whose new parent would not form a cycle keeps every parent chain finite |
| CategoryEdits.UpdatePreservesValid | lib/stores/categoryStore.ts:79-87 | such an update keeps unique non-empty ids and an acyclic hierarchy |
| CategoryEdits.FindInFiltered | lib/stores/categoryStore.ts:98-99 | removing the deleted id does not change the lookup of any other id |
| CategoryEdits.FindAfterDelete | lib/stores/categoryStore.ts:90-107 | after a delete each other lookup finds what it found before, re-parented if it was a child of the deleted record |
| CategoryEdits.ParentAfterDelete | lib/stores/categoryStore.ts:97-105 | a record that was not a child of the deleted one keeps its parent, re-parented the same way |
| CategoryEdits.ParentOfOrphan | lib/stores/categoryStore.ts:100-104 | a child of the deleted record now has the deleted record's own parent |
| CategoryEdits.DeletePreservesAcyclic | lib/stores/categoryStore.ts:90-107 | deleting keeps every parent chain finite |
| CategoryEdits.DeletePreservesValid | lib/stores/categoryStore.ts:90-107 | deleting keeps unique non-empty ids and an acyclic hierarchy |
| CategoryEdits.FindAfterAppend | lib/stores/categoryStore.ts:71-73 | appending a record does not change the lookup of any other id |
| CategoryEdits.CreatePreservesValid | lib/stores/categoryStore.ts:60-76 | creating with a fresh, non-empty id that no record names as parent keeps the invariant |
| CategoryEdits.ChildCategoriesSpec | lib/stores/categoryStore.ts:137-141 | `getChildCategories` is a permutation of the matching records, holds exactly the children, is sorted by `order`, and keeps list order among equal orders |
| CategoryEdits.DescendsStep | lib/stores/categoryStore.ts:147-155 | a record lies below a parent exactly when it is a direct child or lies below one of the direct children |
| CategoryEdits.TreeMembers | lib/stores/categoryStore.ts:147-155 | for any list with unique ids, cycles included, `buildTree(p)` from a point whose walk up ends shows exactly the listed records below `p` |
| CategoryEdits.TreeShowsRooted | lib/stores/categoryStore.ts:144-158 | for any list with unique ids, `getCategoryTree` shows a record exactly when its walk up ends at a root (`parentId` null); records under a missing parent, on a cycle or below one are never shown |
| CategoryEdits.TwoCycleNeverEnds | lib/stores/categoryStore.ts:161-174 | when two categories name each other as parent, the walk up of `getCategoryPath` from either never ends |
| CategoryEdits.CyclicPair | lib/stores/categoryStore.ts:144-158 | two categories naming each other as parent have walks that never end, and the tree shows neither |
| CategoryEdits.UpdateCanCreateCycle | lib/stores/categoryStore.ts:79-87 | `updateCategory` giving a top-level category its own child as parent turns a valid list into one with a cycle, whose walks never end and whose tree is empty |
| CategoryOrder.ReorderedSpec | lib/stores/categoryStore.ts:213-220 | `reorderCategories` changes only `order`; a listed category gets the first index of its id in the given list, and the others stay as they were |
| CategoryOrder.ReorderedValid | lib/stores/categoryStore.ts:213-220 | reordering keeps unique non-empty ids and an acyclic hierarchy |
| CategoryOrder.SpliceListUnique | lib/stores/categoryStore.ts:229-234 | the spliced sibling list holds the moved category and its siblings once each |
| CategoryOrder.PositionInList | lib/stores/categoryStore.ts:238-242 | a category of the spliced list is numbered with its index in it |
| CategoryOrder.SiblingPosition | lib/stores/categoryStore.ts:229-242 | a sibling before the insertion point keeps its rank among the sorted siblings; one after it moves one place down |
| CategoryOrder.ReorderedWithinParentSpec | lib/stores/categoryStore.ts:223-245 | unknown id changes nothing; otherwise only `order` changes, only within the parent group, the moved category gets the clamped splice index, and the group is numbered 0..n without repeats |
| CategoryOrder.OnlyOrderChanges | lib/stores/categoryStore.ts:237-244 | `reorderWithinParent` changes no field but `order` |
| CategoryOrder.GroupUnchangedOutside | lib/stores/categoryStore.ts:237-244 | categories under another parent are left as they were |
| CategoryOrder.GroupPositions | lib/stores/categoryStore.ts:229-244 | the moved category lands at `splice`'s clamped index and the siblings get distinct orders between 0 and their count |
| CategoryOrder.GroupKeepsOrder | lib/stores/categoryStore.ts:229-244 | siblings other than the moved one keep their relative order |
| CategoryOrder.SiblingsKeepOrder | lib/stores/categoryStore.ts:229-242 | two siblings with `a.order < b.order` are numbered in the same order after the splice |
| CategoryOrder.ReorderedWithinParentValid | lib/stores/categoryStore.ts:223-245 | reordering within a parent keeps the store invariant |
| CategoryStore.FindBySlug | lib/stores/categoryStore.ts:115-117 | `getCategoryBySlug` finds the first category with the slug, and nothing exactly when none has it |
| CategoryStore.ActiveCategories | lib/stores/categoryStore.ts:120-122 | the active categories in list order, exactly those |
| CategoryStore.SpecialCategories | lib/stores/categoryStore.ts:125-127 | the special categories in list order, exactly those |
| CategoryStore.CanDeleteCategory | lib/stores/categoryStore.ts:254-269 | deletion is allowed exactly for a listed category other than `uncategorized`; a refusal carries a reason, "Category not found" for a missing one |
| CategoryStore.AllowedDeletePreservesValid | lib/stores/categoryStore.ts:254-269 | a deletion `canDeleteCategory` allows keeps the store invariant |
| CategoryStore.WithArticleCountSpec | lib/stores/categoryStore.ts:272-278 | `updateArticleCount` sets the count on the matching category only and keeps the invariant |
| CategoryStore.AcyclicWalkEnds | lib/stores/categoryStore.ts:204-207 | in an acyclic list the walk up from any id terminates |
| CategoryStore.MeetsUnfold | lib/stores/categoryStore.ts:204-207 | the check's walk meets the category exactly when it starts there or the parent's walk meets it |
| CategoryStore.MeetsIsAncestor | lib/stores/categoryStore.ts:204-207 | on a walk up that ends, meeting the category is having it as self or ancestor |
| CategoryStore.EndsWithinStops | lib/stores/categoryStore.ts:204-207 | a walk up that ends within n steps stops the check's loop within n steps, whatever category it looks for |
| CategoryStore.CheckAgreesWhenWalkEnds | lib/stores/categoryStore.ts:197-210 | when the walk from the new parent ends, the check's loop stops and it fires exactly for a move that would close a cycle |
| CategoryStore.TwoCycleCheck | lib/stores/categoryStore.ts:197-210 | with two categories naming each other as parent, moving one under the other stops the loop and is refused; for a category off the cycle the loop never stops |
| CategoryStore.TwoCycleNeverStops | lib/stores/categoryStore.ts:204-207 | on a two-cycle that does not hold the category, the check's loop stops within no number of steps |
| CategoryStore.CategoryStore.constructor | lib/stores/categoryStore.ts:52 | the store starts with no categories |
| CategoryStore.CategoryStore.InitializeCategories | lib/stores/categoryStore.ts:55-57 | the list becomes the given one |
| CategoryStore.CategoryStore.CreateCategory | lib/stores/categoryStore.ts:60-76 | the new record is appended and its id returned |
| CategoryStore.CategoryStore.UpdateCategory | lib/stores/categoryStore.ts:79-87 | the list becomes the merged list |
| CategoryStore.CategoryStore.DeleteCategory | lib/stores/categoryStore.ts:90-107 | the list loses the record and its children take its parent; an unknown id changes nothing |
| CategoryStore.CategoryStore.GetCategoryPath | lib/stores/categoryStore.ts:161-174 | the breadcrumb is empty for an unknown id, otherwise the walk up reversed, root first |
| CategoryStore.CategoryStore.HasCircularDependency | lib/stores/categoryStore.ts:197-210 | callable whenever the loop stops, that is when the walk from the new parent reaches a root or meets the category, on a cycle through the category included; answers true exactly when the new parent is the category or its walk up meets it, which on a walk that ends is the cycle test the invariant is proved against |
| CategoryStore.CategoryStore.MoveCategoryToParent | lib/stores/categoryStore.ts:177-194 | callable whenever the check's loop stops; refuses the move and changes nothing exactly when the check fires, otherwise sets the parent, returns true, and keeps the invariant |
| CategoryStore.CategoryStore.ReorderCategories | lib/stores/categoryStore.ts:213-220 | the list becomes the reordered list |
| CategoryStore.CategoryStore.ReorderWithinParent | lib/stores/categoryStore.ts:223-245 | the list becomes the list renumbered within the parent |
| CategoryStore.CategoryStore.UpdateArticleCount | lib/stores/categoryStore.ts:272-278 | the list becomes the list with the count set |
| CategoryStore.PathStep | lib/stores/categoryStore.ts:166-171 | the loop invariant of `getCategoryPath`: the reversed path so far followed by the rest of the walk is the full walk |
| CategoryStore.PathLinks | lib/stores/categoryStore.ts:161-174 | the breadcrumb starts at a root, ends at the category, and each entry is the parent of the next |
| CategoryTreeView.WithLevelsSpec | components/admin/CategoryTree.tsx:75-81 | `buildTreeWithLevels` keeps the tree's records and shape, and gives every node its depth, counted from the starting level |
| CategoryTreeView.FlattenTree | components/admin/CategoryTree.tsx:86-94 | the `reduce` loop yields each node followed by its flattened children exactly when its id is expanded and it has children |
| CategoryTreeView.FlattenNothingExpanded | components/admin/CategoryTree.tsx:86-94 | with nothing expanded the flat list is the root rows |
| CategoryTreeView.FlattenKeepsRoots | components/admin/CategoryTree.tsx:86-94 | the root rows always appear in the flat list, in order |
| CategoryTreeView.ToggleExpand | components/admin/CategoryTree.tsx:104-114 | the toggled set differs from the old one in exactly the given id |
| CategoryTreeView.ToggleExpandTwice | components/admin/CategoryTree.tsx:104-114 | toggling the same id twice restores the set |
| CategoryTreeView.ArrayMoveSpec | components/admin/CategoryTree.tsx:133 | `arrayMove` puts the moved item at the target index, keeps the length and the items, and keeps the other items in order |
| CategoryTreeView.RowIdsFound | components/admin/CategoryTree.tsx:129-132 | `findIndex` on the row ids answers -1 exactly when the id is not among the rows |
| CategoryTreeView.RowIdsMove | components/admin/CategoryTree.tsx:133-134 | the ids of the moved rows are the moved ids |
| CategoryTreeView.DragEndSpec | components/admin/CategoryTree.tsx:124-136 | a reorder happens exactly when there is a target, it differs from the dragged row and both are shown; the ids sent are the shown ids with the dragged one at the target's place and the rest in order |
| CategoryTreeView.ArticleCount | components/admin/CategoryTree.tsx:99-101 | the count is the number of articles filed under the category id |
| CategoryTreeView.DeleteEnabledAgrees | components/admin/CategoryTree.tsx:317-321 | the menu's Delete entry is enabled exactly when the store's `canDeleteCategory` allows the deletion |
| CategoryForm.ChildIdsMembers | components/admin/CategoryForm.tsx:63-68 | `getChildIds(id)` holds exactly the ids of the categories below `id` |
| CategoryForm.GrandchildIdsMembers | components/admin/CategoryForm.tsx:66 | the `flatMap` over the children holds exactly the ids below some child |
| CategoryForm.CycleIffBelow | components/admin/CategoryForm.tsx:59-72 | excluding the category and its descendants excludes exactly the parents the store's cycle check refuses |
| CategoryForm.AvailableParentsSpec | components/admin/CategoryForm.tsx:59-72 | a new category may pick any category; an edited one exactly those that would not form a cycle, in list order |
| CategoryForm.ParentOptionsSpec | components/admin/CategoryForm.tsx:215-225 | the dropdown is the available parents other than `uncategorized` and inactive ones, sorted by `order`, none of which forms a cycle |
| CategoryForm.Payload | components/admin/CategoryForm.tsx:98-113 | the parent is null exactly when "none" is chosen, and a special page route is set exactly for a special category |
| CategoryForm.SubmitAsWritten | components/admin/CategoryForm.tsx:74-116 | each error exactly under its condition in the order as written (both names, a slug, the untrimmed slug's uniqueness, a route for a special category), acceptance exactly when every check passes, and then the payload |
| CategoryForm.Submit | components/admin/CategoryForm.tsx:74-116 | the same checks with uniqueness tested on the trimmed slug that is stored, then the route of a special category; each error exactly under its condition |
| CategoryForm.SubmitAccepted | components/admin/CategoryForm.tsx:98-113 | an accepted payload has non-empty trimmed names and slug, a unique slug, and a non-empty special route |
| CategoryForm.SubmitThenCreateKeepsSlugsUnique | components/admin/CategoryForm.tsx:88-115 | creating from an accepted form keeps all slugs distinct |
| CategoryForm.SubmitThenUpdateKeepsInvariants | components/admin/CategoryForm.tsx:59-115 | editing from an accepted form with a parent the picker offered keeps slugs distinct and the hierarchy valid |
| CategoryForm.PaddedSlugSlipsThrough | components/admin/CategoryForm.tsx:88-100 | as written, a slug taken except for a trailing space passes the check and then stores a duplicate slug |
| CategoryForm.CategoryFormState.constructor | components/admin/CategoryForm.tsx:37-48 | the fields start from the edited category, with the same fallbacks, or from the defaults; auto-slug is on only for a new category |
| CategoryForm.CategoryFormState.HandleNameEnChange | components/admin/CategoryForm.tsx:51-56 | the name is set, and the slug is regenerated from a non-empty name only when auto-slug is on; nothing else changes |
| CategoryForm.CategoryFormState.HandleSubmit | components/admin/CategoryForm.tsx:74-116 | the handler's outcome is that of the checks as written, uniqueness on the untrimmed slug, on the current fields |
| CategoriesPage.FilteredCategoriesSpec | app/admin/categories/page.tsx:59-64 | "all" shows every category; "active", "inactive" and "special" show exactly the matching ones, and active plus inactive account for all |
| CategoriesPage.StatsAddUp | app/admin/categories/page.tsx:67-72 | the active and inactive counts add up to the total, and the special count is at most the total |
| CategoriesPage.ReassignCalls | app/admin/categories/page.tsx:97-107 | one reassignment to `uncategorized`, of exactly the ids of the category's articles in order, and none when it has no articles |
| CategoriesPage.CategoriesPage.constructor | app/admin/categories/page.tsx:45-49 | the form is closed, nothing is being edited or deleted, and the filter is "all" |
| CategoriesPage.CategoriesPage.InitGuard | app/admin/categories/page.tsx:52-56 | the seed categories are loaded only into an empty store |
| CategoriesPage.CategoriesPage.HandleSubmit | app/admin/categories/page.tsx:75-87 | an edit updates the edited category; a new category is created under the chosen parent when one was picked; the form closes |
| CategoriesPage.CategoriesPage.ConfirmDelete | app/admin/categories/page.tsx:94-111 | with no pending deletion nothing happens; otherwise the articles are reassigned, the category deleted, the invariant kept and the confirmation cleared |
| CategoriesPage.CategoriesPage.HandleToggleActive | app/admin/categories/page.tsx:114-116 | the category's `isActive` is flipped through `updateCategory`, keeping the invariant |
| CategoriesPage.ToggleActiveSpec | app/admin/categories/page.tsx:114-116 | only the toggled category changes, and only its `isActive` and `updatedAt` |
| ArticleStore.ArticlesByCategory | lib/stores/articleStore.ts:40-43 | exactly the articles whose category slug matches, in list order |
| ArticleStore.ArticleBySlug | lib/stores/articleStore.ts:45-48 | the first article with the slug, and nothing exactly when none has it |
| ArticleStore.FeaturedArticles | lib/stores/articleStore.ts:50-53 | exactly the featured articles, in list order |
| ArticleStore.DraftsAndPublished | lib/stores/articleStore.ts:105-113 | drafts are the `draft` articles; published are `published` or status-less ones; no article is both; scheduled ones are in neither |
| ArticleStore.SearchArticles | lib/stores/articleStore.ts:55-88 | exactly the articles whose title, summary, category name, author name or a tag contains the lower-cased query in either language, in list order |
| ArticleStore.SearchEmptyQuery | lib/stores/articleStore.ts:55-88 | the empty query keeps every article |
| ArticleStore.SearchNarrows | lib/stores/articleStore.ts:55-88 | a query containing another finds a subset of what the shorter one finds |
| ArticleStore.MatchNarrows | lib/stores/articleStore.ts:57-86 | an article matching a longer query matches every query it contains |
| ArticleStore.WithStatusSpec | lib/stores/articleStore.ts:97-103 | only the matching article's status changes; an unknown id changes nothing; setting the same status twice is the same as once |
| ArticleStore.ArticleStore.constructor | lib/stores/articleStore.ts:30-34 | the store starts from the seed articles and categories, with no selected category and an empty query |
| ArticleStore.ArticleStore.SetSelectedCategory | lib/stores/articleStore.ts:36 | only the selected category changes |
| ArticleStore.ArticleStore.SetSearchQuery | lib/stores/articleStore.ts:38 | only the query changes |
| ArticleStore.ArticleStore.CreateArticle | lib/stores/articleStore.ts:91-95 | the article is appended and nothing else changes |
| ArticleStore.ArticleStore.UpdateArticleStatus | lib/stores/articleStore.ts:97-103 | the list becomes the list with that status set, and nothing else changes |
| AdminStore.Toggled | lib/stores/adminStore.ts:81-90 | the id is selected afterwards exactly when it was not before, and every other id keeps its state |
| AdminStore.ToggledKeepsOthers | lib/stores/adminStore.ts:81-90 | the other selected ids keep their order |
| AdminStore.ToggledDistinct | lib/stores/adminStore.ts:81-90 | a selection without repeats stays without repeats |
| AdminStore.ToggledTwice | lib/stores/adminStore.ts:81-90 | toggling twice restores an unselected id's selection, and moves a selected id to the end |
| AdminStore.AdminStore.constructor | lib/stores/adminStore.ts:43-51 | the store starts with status "all", no category, empty search and range, no selection, list view, page 1, 20 per page |
| AdminStore.AdminStore.SetStatusFilter | lib/stores/adminStore.ts:54-56 | the status filter is set and the page goes back to 1 |
| AdminStore.AdminStore.SetCategoryFilter | lib/stores/adminStore.ts:58-60 | the category filter is set and the page goes back to 1 |
| AdminStore.AdminStore.SetSearchQuery | lib/stores/adminStore.ts:62-64 | the query is set and the page goes back to 1 |
| AdminStore.AdminStore.SetDateRange | lib/stores/adminStore.ts:66-68 | the range is set and the page goes back to 1 |
| AdminStore.AdminStore.ResetFilters | lib/stores/adminStore.ts:70-78 | the filters and page return to their initial values; the selection, view mode and page size are kept |
| AdminStore.AdminStore.ToggleArticleSelection | lib/stores/adminStore.ts:81-90 | only the selection changes; the id's selected state flips and a selection without repeats stays so |
| AdminStore.AdminStore.SelectAllArticles | lib/stores/adminStore.ts:92-94 | the selection becomes the given ids |
| AdminStore.AdminStore.ClearSelection | lib/stores/adminStore.ts:96-98 | the selection becomes empty |
| AdminStore.AdminStore.IsArticleSelected | lib/stores/adminStore.ts:100-103 | true exactly when the id is in the selection |
| AdminStore.AdminStore.SetViewMode | lib/stores/adminStore.ts:106-108 | only the view mode changes |
| AdminStore.AdminStore.SetCurrentPage | lib/stores/adminStore.ts:110-112 | only the page changes |
| AdminStore.AdminStore.SetArticlesPerPage | lib/stores/adminStore.ts:114-116 | the page size is set and the page goes back to 1 |
| ArticlesPage.FilteredArticlesSpec | app/admin/articles/page.tsx:44-79 | an article is listed exactly when it passes the status test (status-less counts as published), the category test when one is set, and the title, summary or author search when the query is non-empty |
| ArticlesPage.NoFiltersKeepsAll | app/admin/articles/page.tsx:44-81 | when `hasFilters` is false every article is listed |
| ArticlesPage.PageSearchWithinStoreSearch | app/admin/articles/page.tsx:65-75 | what the page's search finds, the store's wider `searchArticles` also finds |
| ArticlesPage.HandleBulkAction | app/admin/articles/page.tsx:83-113 | with no selection nothing happens; a confirmed publish, draft or delete issues exactly one call on the selected ids and clears the selection; otherwise nothing changes |
| CalendarPage.CalendarIgnoresSearch | app/admin/articles/calendar/page.tsx:26-48 | the calendar's filter is the list page's with an empty query, and with no filters keeps every article |
| CalendarPage.CalendarArticlesSpec | app/admin/articles/calendar/page.tsx:26-48 | an article is shown exactly when it passes the status test and, when set, the category test |
| ArticlesTable.SelectionFlags | components/admin/ArticlesTable.tsx:45-46 | "all selected" and "some selected" never hold together, and one of them holds exactly when the selection is non-empty |
| ArticlesTable.HandleSelectAll | components/admin/ArticlesTable.tsx:48-54 | clears the selection when all rows were selected, otherwise selects every row id; for a non-empty table the "all selected" flag flips |
| ArticlesTable.NextSort | components/admin/ArticlesTable.tsx:56-63 | the clicked column becomes the sort column; the same column flips direction, a new one starts descending |
| ArticlesTable.NextSortTwice | components/admin/ArticlesTable.tsx:56-63 | clicking the same column twice restores the state, or leaves a new column ascending |
| ArticlesTable.SortControl.constructor | components/admin/ArticlesTable.tsx:42-43 | sorting starts on `publishedAt`, descending |
| ArticlesTable.SortControl.HandleSort | components/admin/ArticlesTable.tsx:56-63 | the sort state becomes the next sort state |
| ArticlesTable.ComparatorIsTotal | components/admin/ArticlesTable.tsx:65-88 | the comparator is a total preorder for each column and direction, so the sort is well defined |
| ArticlesTable.SortedArticlesSpec | components/admin/ArticlesTable.tsx:65-88 | the sorted copy is a permutation of the rows, ordered by the comparator, and stable |
| ArticlesTable.DefaultSortNewestFirst | components/admin/ArticlesTable.tsx:42-43 | with the initial state the rows are newest first |
| ArticlesTable.BadgeAgreesWithStore | components/admin/ArticlesTable.tsx:90-108 | the Published and Draft badges are shown for exactly the store's published and draft articles |
| ArticleCalendar.Events | components/admin/ArticleCalendar.tsx:34-49 | one event per article with its id, starting at `scheduledFor` when set and at `publishedAt` otherwise |
| ArticleCalendar.EventDrop | components/admin/ArticleCalendar.tsx:55-72 | a drop with a date that is confirmed issues exactly one update to that date with status scheduled; otherwise the drop is reverted |
| ArticleCalendar.ArticlesOnDay | components/admin/ArticleCalendar.tsx:78-88 | exactly the articles whose display date falls on the clicked calendar day, in list order |
| ArticleCalendar.DayListMatchesEvents | components/admin/ArticleCalendar.tsx:34-88 | the day dialog lists as many articles as the calendar shows events on that day |
| ArticleCalendar.DayDialog.constructor | components/admin/ArticleCalendar.tsx:29-31 | the dialog starts closed with no date and no articles |
| ArticleCalendar.DayDialog.HandleDateClick | components/admin/ArticleCalendar.tsx:74-93 | the clicked date and its articles are stored and the dialog opens |
| ArticlesByCategory.CategoryArticles | components/admin/ArticlesByCategory.tsx:43-45 | exactly the articles filed under the category, in list order |
| ArticlesByCategory.GroupedPartition | components/admin/ArticlesByCategory.tsx:48-54 | the published, scheduled and draft groups are disjoint, keep list order, and together hold every article of the category |
| ArticlesByCategory.Shown | components/admin/ArticlesByCategory.tsx:82-84 | the folder renders nothing exactly when the category has no articles |
| ArticlesByCategory.Folder.constructor | components/admin/ArticlesByCategory.tsx:37-38 | the folder starts collapsed with no status group open |
| ArticlesByCategory.Folder.IsExpanded | components/admin/ArticlesByCategory.tsx:40 | the parent's `isExpanded` wins when given, otherwise the folder's own state |
| ArticlesByCategory.Folder.HandleToggle | components/admin/ArticlesByCategory.tsx:58-64 | with an `onToggle` callback the callback is called and the state is kept; otherwise the folder's own state flips |
| ArticlesByCategory.Folder.ToggleStatusGroup | components/admin/ArticlesByCategory.tsx:66-76 | exactly the given status group flips between open and closed |
| AuthorStore.AuthorById | lib/stores/authorStore.ts:57-60 | the first author with that id, and nothing exactly when none has it |
| AuthorStore.AuthorBySlug | lib/stores/authorStore.ts:62-65 | the first author with that slug, and nothing exactly when none has it |
| AuthorStore.ActiveDeletedPartition | lib/stores/authorStore.ts:67-75 | active and deleted authors are exactly the non-deleted and deleted ones, in list order, and together are the whole list |
| AuthorStore.SearchAuthors | lib/stores/authorStore.ts:85-105 | exactly the authors whose name or bio in either language, or slug, contains the lower-cased query, in list order |
| AuthorStore.SearchAuthorsEmptyQuery | lib/stores/authorStore.ts:85-105 | the empty query keeps every author |
| AuthorStore.UpdatedSpec | lib/stores/authorStore.ts:118-124 | the matching author takes the update's fields over its own, the others stay, and an unknown id changes nothing |
| AuthorStore.WithDeletedSpec | lib/stores/authorStore.ts:126-140 | soft delete and restore set `isDeleted` on the matching author only; each is idempotent and overrides the other |
| AuthorStore.DeleteThenRestore | lib/stores/authorStore.ts:126-140 | deleting then restoring authors that were not deleted gives the list back |
| AuthorStore.AuthorStore.constructor | lib/stores/authorStore.ts:49-54 | the seed authors, each with its creation time or 1 January 2024, and an empty query |
| AuthorStore.AuthorStore.SetSearchQuery | lib/stores/authorStore.ts:83 | only the query changes |
| AuthorStore.AuthorStore.CreateAuthor | lib/stores/authorStore.ts:108-116 | the author is appended with the current time and not deleted |
| AuthorStore.AuthorStore.UpdateAuthor | lib/stores/authorStore.ts:118-124 | the list becomes the merged list |
| AuthorStore.AuthorStore.SoftDeleteAuthor | lib/stores/authorStore.ts:126-132 | the list becomes the list with the author marked deleted |
| AuthorStore.AuthorStore.RestoreAuthor | lib/stores/authorStore.ts:134-140 | the list becomes the list with the author marked not deleted |
| AuthorStore.AuthorStore.GetAuthorStats | lib/stores/authorStore.ts:143-205 | the total, active and deleted counts, with active plus deleted equal to the total, and the top contributor |
| AuthorStore.AuthorArticleCount | lib/stores/authorStore.ts:207-209 | the number of entries carrying that author id |
| AuthorStore.TopUnique | lib/stores/authorStore.ts:170-178 | only one id can be the leader the scan picks |
| AuthorStore.CountEntries | lib/stores/authorStore.ts:163-168 | the counting loop gives each id its number of entries, and lists the ids in order of first entry |
| AuthorStore.Leader | lib/stores/authorStore.ts:170-178 | the scan ends at an id with the most entries, ahead of every earlier-seen id with as many, together with its count |
| AuthorStore.TopContributorOf | lib/stores/authorStore.ts:157-189 | no data gives no author and 0; otherwise the leader's author and count, or none for an empty or unknown id |
| AuthorStore.TopAgreesWithArticleCount | lib/stores/authorStore.ts:157-209 | the top contributor's count is its `getAuthorArticleCount`, and no author has more |
| AuthorForm.StripHyphensSpec | components/admin/AuthorForm.tsx:24 | `/^-+\|-+$/g` removes exactly the leading and trailing hyphens, leaving a middle slice that neither starts nor ends with one |
| AuthorForm.DashedSpec | components/admin/AuthorForm.tsx:19-23 | before the ends are stripped the text holds only `[a-z0-9-]` and no "--" |
| AuthorForm.KeptAuthorChars | components/admin/AuthorForm.tsx:22 | after `/[^\w\s-]/g` is removed from lower-case text, every character other than a space, `_` or `-` is a lower-case letter or a digit |
| AuthorForm.GenerateSlugIsAuthorSlug | components/admin/AuthorForm.tsx:18-25 | every author slug is made of `[a-z0-9-]`, has no "--", and does not start or end with a hyphen |
| AuthorForm.AuthorSlugIsSlug | components/admin/AuthorForm.tsx:18-25 | every author slug is also a slug in the category store's normal form |
| AuthorForm.AuthorSlugFixpoint | components/admin/AuthorForm.tsx:18-25 | an author slug is its own slug |
| AuthorForm.AuthorGenerateSlugIdempotent | components/admin/AuthorForm.tsx:18-25 | generating an author slug from a generated one changes nothing |
| AuthorForm.IsSlugUnique | components/admin/AuthorForm.tsx:57-63 | an edited author may keep its own slug; any other slug is accepted exactly when it is not among the existing slugs |
| AuthorForm.EmailPatternShape | components/admin/AuthorForm.tsx:95 | an address `/^[^\s@]+@[^\s@]+\.[^\s@]+$/` accepts has exactly one `@`, not at the start, and no white space |
| AuthorForm.Link | components/admin/AuthorForm.tsx:106-109 | a social link is kept, trimmed, exactly when it is not blank |
| AuthorForm.CheckRest | components/admin/AuthorForm.tsx:84-98 | the later checks in order: both bios, a photo, then a non-empty email must match the pattern; each error exactly under its condition |
| AuthorForm.SubmitAsWritten | components/admin/AuthorForm.tsx:65-114 | each error exactly under its condition as written (both names, a slug, the untrimmed slug's uniqueness); past those, the outcome is that of the bio, photo and e-mail checks, acceptance exactly when all pass, with the trimmed payload |
| AuthorForm.Submit | components/admin/AuthorForm.tsx:65-114 | the same checks with uniqueness tested on the trimmed slug that is stored; acceptance exactly when every check passes, with the trimmed payload |
| AuthorForm.SubmitAccepted | components/admin/AuthorForm.tsx:100-111 | an accepted new author has non-empty names, bios and photo, a trimmed slug not yet in use, and a valid trimmed email when one is given |
| AuthorForm.AsWrittenAccepts | components/admin/AuthorForm.tsx:65-111 | as written, a new author with both names, bios and a photo filled, no e-mail and a typed slug not in use is accepted with the trimmed payload |
| AuthorForm.PaddedAuthorSlugSlipsThrough | components/admin/AuthorForm.tsx:79-102 | as written, a taken slug with a trailing space passes the check and is stored as the taken slug |
| AuthorForm.AuthorFormState.constructor | components/admin/AuthorForm.tsx:36-46 | the fields start from the edited author, with empty fallbacks, or empty; auto-slug is on only for a new author |
| AuthorForm.AuthorFormState.HandleNameEnChange | components/admin/AuthorForm.tsx:49-54 | the name is set and, with auto-slug on and a non-empty name, the slug regenerated; nothing else changes |
| AuthorForm.AuthorFormState.HandleSlugChange | components/admin/AuthorForm.tsx:170-175 | typing a slug sets it and turns auto-slug off |
| AuthorForm.AuthorFormState.ToggleAutoSlug | components/admin/AuthorForm.tsx:163 | the auto-slug switch flips and nothing else changes |
| AuthorForm.AuthorFormState.HandleSubmit | components/admin/AuthorForm.tsx:65-114 | the handler's outcome is that of the checks as written, uniqueness on the untrimmed slug, on the current fields |
| AuthorsPage.ModeList | app/admin/authors/page.tsx:47-55 | "active", "deleted" and "all" pick the store's active, deleted and full lists |
| AuthorsPage.FilteredAuthors | app/admin/authors/page.tsx:46-65 | a blank query keeps the mode's list; otherwise the mode's authors whose id matches some author the store's search finds, in order |
| AuthorsPage.FirstRenderListsActive | app/admin/authors/page.tsx:42-65 | the page opens in the 'active' mode with an empty query, so its first render lists exactly the authors not deleted, in store order |
| AuthorsPage.FilteredAuthorsMatch | app/admin/authors/page.tsx:57-62 | with unique ids, the page shows exactly the mode's authors the search matches |
| AuthorsPage.ArticlesData | app/admin/authors/page.tsx:70 | one entry per article carrying its author's id |
| AuthorsPage.CardCountIsArticleCount | app/admin/authors/page.tsx:163 | the count on an author's card is the number of articles written by that author |
| NewAuthorPage.ExistingSlugs | app/admin/authors/new/page.tsx:19-20 | the slugs of all authors, deleted ones included, in order |
| NewAuthorPage.MaxIdNumber | app/admin/authors/new/page.tsx:24 | the largest `parseInt(id) \|\| 0`, or 0 |
| NewAuthorPage.NewIdFresh | app/admin/authors/new/page.tsx:24 | the new id's number is one more than the largest, so it differs from every existing id |
| NewAuthorPage.NewIdWithoutNumericIds | app/admin/authors/new/page.tsx:24 | with no positive numeric id the new id is "1" |
| NewAuthorPage.HandleSubmit | app/admin/authors/new/page.tsx:22-35 | the store gains exactly one author, with the fresh id, the current time and not deleted |
| NewAuthorPage.AppendKeepsAuthorsUnique | app/admin/authors/new/page.tsx:22-33 | appending an author whose id and slug are both new keeps ids and slugs unique |
| NewAuthorPage.SubmitKeepsAuthorsUnique | app/admin/authors/new/page.tsx:19-33 | creating from an accepted form with the fresh id keeps author ids and slugs unique |
| JsNumber.ParseDecimal | app/admin/authors/new/page.tsx:24 | `parseInt(String(n))` is `n` for every non-negative integer |
| JsNumber.ParseDigits | app/admin/authors/new/page.tsx:24 | `parseInt` of a string of decimal digits is its value |
| JsNumber.Decimal | app/admin/authors/new/page.tsx:24 | `String(n)` is a non-empty run of digits with no leading zero |
| TagManager.NewTag | components/editor/TagManager.tsx:20-24 | a tag from at least one non-blank input has both sides non-empty: each side its own trimmed input, or the other side's when its own is blank |
| TagManager.DropIndexRemovesOne | components/editor/TagManager.tsx:31-33 | the `filter` on the index drops exactly the tag at that index |
| TagManager.RemoveTag | components/editor/TagManager.tsx:31-33 | removing a valid index leaves one tag fewer, the others in order; any other index changes nothing |
| TagManager.TagInputs.constructor | components/editor/TagManager.tsx:16-17 | both inputs start empty |
| TagManager.TagInputs.HandleAddTag | components/editor/TagManager.tsx:19-29 | with both inputs blank nothing happens; otherwise the new tag is appended and both inputs are cleared |
| TagManager.TagInputs.HandleKeyDown | components/editor/TagManager.tsx:35-40 | Enter adds a tag as the button does, any other key does nothing |
| ArticleEditor.EmptyForm | components/editor/ArticleEditor.tsx:29-45 | the form starts with auto-slug on, no category, no tags and not featured |
| ArticleEditor.AutoSlug | components/editor/ArticleEditor.tsx:49-59 | after the effect the slug is in sync with the title; only the slug changes, and it becomes the strict slug of the English title when it was out of sync |
| ArticleEditor.AutoSlugIdempotent | components/editor/ArticleEditor.tsx:49-59 | the effect changes nothing when the slug is already in sync, so running it twice is the same as once |
| ArticleEditor.Validate | components/editor/ArticleEditor.tsx:63-86 | no error exactly for a complete form; otherwise the first failing check in order: titles, summaries, bodies, category, cover image, author names |
| ArticleEditor.EmptyFormRejected | components/editor/ArticleEditor.tsx:63-66 | the empty form is refused for its titles |
| ArticleEditor.NewArticle | components/editor/ArticleEditor.tsx:88-119 | the article carries the form's texts, category, cover and flags, the id `article-<time>`, a temporary author, a subtitle exactly when one is given, and published or draft status as asked |
| ArticleEditor.NewArticleListed | components/editor/ArticleEditor.tsx:103-122 | once added, the article is among the store's published articles exactly when it was published, and among the drafts otherwise |
| ArticleEditor.Editor.constructor | components/editor/ArticleEditor.tsx:25-46 | the editor starts with the empty form on the English tab, no preview and draft status |
| ArticleEditor.Editor.SetTitleEn | components/editor/ArticleEditor.tsx:236 | the title is set and the slug effect applied |
| ArticleEditor.Editor.SetSlug | components/editor/ArticleEditor.tsx:403-406 | typing a slug sets it and turns auto-slug off |
| ArticleEditor.Editor.SetAutoSlug | components/editor/ArticleEditor.tsx:413 | turning auto-slug on regenerates the slug from a non-empty title; turning it off changes only the switch |
| ArticleEditor.Editor.ResetForm | components/editor/ArticleEditor.tsx:134-152 | every field returns to the empty form |
| ArticleEditor.Editor.Create | components/editor/ArticleEditor.tsx:103-131 | the article is appended to the store; a draft save resets the form, a publish keeps it |
| ArticleEditor.Editor.HandleSubmit | components/editor/ArticleEditor.tsx:61-132 | a refused form changes nothing and reports its first error; an accepted one is appended, and a draft save resets the form |
| ArticleEditor.Editor.SaveDraft | components/editor/ArticleEditor.tsx:359-362 | the status becomes Draft whatever happens; then a refused form changes nothing else, and an accepted one is appended as a draft and the form is reset |
| ArticleEditor.Editor.Publish | components/editor/ArticleEditor.tsx:369-372 | the status becomes Published whatever happens; then a refused form changes nothing else, and an accepted one is appended as published with the form kept |
| Translations.Split | lib/translations.ts:184 | `key.split('.')` gives at least one part and no part contains the separator |
| Translations.SplitJoin | lib/translations.ts:184 | splitting the joined parts gives the parts back |
| Translations.JoinSplit | lib/translations.ts:184 | joining the parts of a split gives the key back |
| Translations.Lookup | lib/translations.ts:188 | a child is found exactly when some entry has that key, and it is one of that key's values |
| Translations.WalkStaysOff | lib/translations.ts:187-193 | once the walk falls off the dictionary it stays off, so the key itself is returned |
| Translations.GetTranslation | lib/translations.ts:182-202 | the loop over the key's parts returns the translation function's value |
| Translations.KeyOfLeafResolves | lib/translations.ts:182-202 | the dotted key of a text entry gives its text in the requested language |
| Translations.KeyOfGroupIsReturned | lib/translations.ts:182-202 | a key that names nothing, or a group rather than a text, comes back unchanged |
| Translations.PlaceholderT | lib/translations.ts:208-218 | the placeholder `t` returns the key it is given |
| Utils.StripLeading | lib/utils.ts:16-21 | `replace(/^w\s+/i, '')`: when the text starts with the word in any case and white space, the word and the whole space run go; otherwise nothing changes |
| Utils.StripTrailing | lib/utils.ts:22-24 | `replace(/\s+w$/i, '')`: when the text ends with white space and the word in any case, they go; otherwise nothing changes |
| Utils.StripAllLeading | lib/utils.ts:16-21 | the six leading replacements, in order, leave a suffix of the text |
| Utils.StripAllTrailing | lib/utils.ts:22-24 | the three trailing replacements, in order, leave a prefix |
| Utils.Clean | lib/utils.ts:15-25 | the result has no white space at either end |
| Utils.RemoveIsSlice | lib/utils.ts:14-26 | `removeTimeApproximations` only cuts a prefix and a suffix, and leaves no white space at either end |
| Utils.NoApproximationOnlyTrimmed | lib/utils.ts:14-26 | a text with no approximation word at either end is only trimmed |
| AdminSidebar.IsActive | components/admin/AdminSidebar.tsx:71-72 | the Dashboard item is highlighted only on `/admin` itself; any other item on every path starting with its href |
| AdminSidebar.LinkHref | components/admin/AdminSidebar.tsx:77 | a disabled item links to "#", any other to its href |
| AdminSidebar.ClickNavigates | components/admin/AdminSidebar.tsx:86 | a click navigates exactly when the item is not disabled |
| AdminSidebar.ActiveNames | components/admin/AdminSidebar.tsx:70-97 | the highlighted names are exactly those of the highlighted items, in display order |
| AdminSidebar.ActiveBelowHref | components/admin/AdminSidebar.tsx:71-72 | an item other than Dashboard stays highlighted on every page below its href |
| AdminSidebar.CalendarHighlightsTwo | components/admin/AdminSidebar.tsx:15-48 | on the calendar page both Articles and Calendar are highlighted, and Dashboard is not |
| AdminSidebar.DisabledItems | components/admin/AdminSidebar.tsx:15-48 | exactly Authors and Settings are disabled, and both link to "#" |
| MockData.CategoryBySlug | lib/mockData.ts:37-39 | the first seed category with the slug, and nothing exactly when none has it |
| MockData.ArticleBySlug | lib/mockData.ts:217-219 | the first seed article with the slug, and nothing exactly when none has it |
| MockData.ArticlesByCategory | lib/mockData.ts:222-224 | exactly the articles of that category slug, in list order |
| MockData.FeaturedArticles | lib/mockData.ts:227-229 | exactly the featured articles, in list order |
| MockData.RelatedArticles | lib/mockData.ts:232-237 | nothing for an unknown id or an article without related ids; otherwise exactly the articles whose id the first such article lists, in list order |
| MockData.IndexById | lib/mockData.ts:233 | the position of the first article with the id, or -1 when there is none |
| MockData.RelatedArticlesOnce | lib/mockData.ts:232-237 | a list without repeats gives related articles without repeats |
| MockData.SeedKeysDistinct | lib/mockData.ts:9-215 | the seed articles have distinct ids and slugs, and the seed categories distinct slugs |
| MockData.SeedFeatured | lib/mockData.ts:227-229 | the featured seed articles are the first three |
| ElectionData.RaceById | lib/electionData.ts:263-265 | the first race with the id, and nothing exactly when none has it |
| ElectionData.MapByRaceId | lib/electionData.ts:275-277 | the first map of the race, and nothing exactly when none has it |
| ElectionData.LiveRaces | lib/electionData.ts:267-269 | exactly the live races, in list order |
| ElectionData.FinalRaces | lib/electionData.ts:271-273 | exactly the final races, in list order |
| ElectionData.LiveAndFinalDisjoint | lib/electionData.ts:267-273 | no race is both live and final, and there are at most as many of both together as races |
| ElectionData.OneWinner | lib/electionData.ts:9-172 | a tally list with one winner flag names a single winning candidate |
| ElectionData.SeedRacesConsistent | lib/electionData.ts:9-172 | each seeded race's votes add up to its total, its percentages to 100, and its one winner has the most votes |
| RaceDashboard.FilteredRaces | components/elections/RaceDashboard.tsx:20-23 | "all" keeps every race; any other filter exactly the races with that status, in order |
| RaceDashboard.FilterCount | components/elections/RaceDashboard.tsx:25-28 | the number on each filter button is the number of races that filter shows |
| RaceDashboard.AllIsSumOfStatuses | components/elections/RaceDashboard.tsx:25-28 | the "all" count is the sum of the live, final and upcoming counts |
| LiveResults.NextSort | components/elections/LiveResults.tsx:23-30 | the clicked column becomes the sort column; the same column flips direction, a new one starts descending |
| LiveResults.NextSortTwice | components/elections/LiveResults.tsx:23-30 | clicking the same column twice restores the state, or leaves a new column ascending |
| LiveResults.SortControl.constructor | components/elections/LiveResults.tsx:20-21 | sorting starts on percentage, descending |
| LiveResults.SortControl.HandleSort | components/elections/LiveResults.tsx:23-30 | the sort state becomes the next sort state |
| LiveResults.SortedCandidates | components/elections/LiveResults.tsx:32-51 | the sorted copy holds the same candidates |
| LiveResults.NumericComparator | components/elections/LiveResults.tsx:42-50 | on votes and percentage the comparator orders by the number, ascending or descending as chosen |
| LiveResults.ComparatorIsTotal | components/elections/LiveResults.tsx:32-51 | with a consistent `localeCompare`, the comparator is a total preorder for every column and direction |
| LiveResults.SortedCandidatesOrdered | components/elections/LiveResults.tsx:32-51 | the copy is ordered by the comparator and keeps the original order among equals |
| LiveResults.SortedByVotes | components/elections/LiveResults.tsx:42-50 | sorting by votes gives a permutation with votes ascending or descending |
| LiveResults.SortedByPercentage | components/elections/LiveResults.tsx:45-50 | sorting by percentage gives a permutation with percentages ascending or descending |
| LiveResults.DefaultSortLeaderFirst | components/elections/LiveResults.tsx:20-21 | with the initial state the first row has the highest percentage |
| ElectoralMapView.CandidateById | components/elections/ElectoralMap.tsx:18-21 | no candidate for a null or empty id; otherwise the first candidate with the id, and nothing exactly when none has it |
| ElectoralMapView.RegionColor | components/elections/ElectoralMap.tsx:18-26 | never empty, and always either the grey "not reported" colour or the party colour of a listed candidate with the winner's id; the grey whenever no winner is found or the winner's colour is empty, as `partyColor || '#E5E7EB'` does, and the winner's colour otherwise |
| ElectoralMapView.EntryAtMostTotal | components/elections/ElectoralMap.tsx:59-62 | each candidate's count is at most the region total |
| ElectoralMapView.UnknownCountsTotalZero | components/elections/ElectoralMap.tsx:59-62 | a region whose counts are all null totals 0 |
| ElectoralMapView.Percentage | components/elections/ElectoralMap.tsx:124-126 | 0 for a zero total; otherwise the share times 100 rounded half up |
| ElectoralMapView.PercentageAtMost100 | components/elections/ElectoralMap.tsx:124-126 | a share of votes within the total is at most 100 |
| ElectoralMapView.EntryLine | components/elections/ElectoralMap.tsx:120-126 | a line is shown exactly for a known candidate with a count, with that candidate and its rounded percentage |
| ElectoralMapView.Tooltip | components/elections/ElectoralMap.tsx:114-144 | the tooltip shows exactly the lines of the region's entries that produce one |
| ElectoralMapView.TooltipAtMost100 | components/elections/ElectoralMap.tsx:120-126 | no tooltip percentage exceeds 100 |
| ElectoralMapView.CompleteCount | components/elections/ElectoralMap.tsx:163 | the number of regions reporting 100 percent |
| ElectoralMapView.CalledCount | components/elections/ElectoralMap.tsx:182 | the number of regions with a winner |
| ElectoralMapView.CountsReachTotal | components/elections/ElectoralMap.tsx:155-182 | "complete" and "called" equal the region count exactly when every region is complete, or called |
| ElectionData.NoWinner | lib/electionData.ts:9-172 | a tally list without a winner flag has no winning candidate |
| RaceDashboard.StatusCounts | components/elections/RaceDashboard.tsx:25-28 | every race is counted under exactly one of the live, final and upcoming filters |
| LiveResults.ComparisonFlips | components/elections/LiveResults.tsx:32-51 | swapping the two candidates flips the sign of the comparison |
| LiveResults.ComparisonChains | components/elections/LiveResults.tsx:32-51 | the comparison is transitive in both directions |
| ElectoralMapView.Lines | components/elections/ElectoralMap.tsx:120-141 | the lines are exactly those the region's entries produce, at most one per entry |
| AdminDashboard.RecencyKey | app/admin/page.tsx:31-32 | an article's recency is its last edit time, else its update time, else its publication time |
| AdminDashboard.RecentArticles | app/admin/page.tsx:29-35 | at most ten articles, all taken from the list |
| AdminDashboard.RecentArticlesAreNewest | app/admin/page.tsx:29-35 | the recent list runs newest first, and no article left out is more recent than one shown |
| HomePage.Hero | app/page.tsx:19-20 | no hero exactly when no article is featured; otherwise the first featured article |
| HomePage.FeaturedHead | app/page.tsx:19-20 | the head of the featured list is the first featured article of the store |
| HomePage.SecondaryFeatures | app/page.tsx:21 | the featured articles that follow the hero, in order: none with at most one featured article, otherwise up to three |
| HomePage.NewsStream | app/page.tsx:24-26 | exactly the articles that are not featured; the sort is stable, so articles published at the same time keep store order |
| HomePage.NewsStreamNewestFirst | app/page.tsx:18-26 | the stream runs newest first and repeats neither the hero nor the secondary features |
| HomePage.Trending | app/page.tsx:105 | the first five articles of the list, or all when there are fewer |
| HomePage.LiveRacesShown | app/page.tsx:29 | the first three live races, or all of them when there are fewer |
| Sidebar.SortedNewestFirst | components/layout/Sidebar.tsx:13-14 | a permutation of the articles ordered by publication time, newest first; articles published at the same time keep store order, as the stable sort does |
| Sidebar.TrendingIsTop | components/layout/Sidebar.tsx:13-15 | at most five trending articles, none published before an article left out |
| Sidebar.TrendingArticles | components/layout/Sidebar.tsx:13-15 | the store's own article list is sorted in place newest first, and the trending list is its first five; nothing else in the store changes |
| UIStore.LanguageOf | lib/stores/uiStore.ts:21-24 | English is left to right, Dhivehi right to left, each under its own code |
| UIStore.InitialLanguage | lib/stores/uiStore.ts:32-62 | English without a window; else a saved "dv" or "en" wins; else Dhivehi exactly when the browser language starts with "dv" in any case; else English |
| UIStore.SavedPreferenceWins | lib/stores/uiStore.ts:39-45 | a saved code chooses its language whatever the browser says |
| UIStore.BrowserRuleIgnoresCase | lib/stores/uiStore.ts:51-55 | with nothing saved, a browser language starting with "dv" in either case chooses Dhivehi |
| UIStore.UIStore.constructor | lib/stores/uiStore.ts:78-81 | the store starts in the initial language with the menu and search closed |
| UIStore.UIStore.SetLanguage | lib/stores/uiStore.ts:83-86 | the language changes and, in a browser, its code is saved; the panels are unchanged |
| UIStore.UIStore.ToggleMobileMenu | lib/stores/uiStore.ts:88 | only the menu flag flips |
| UIStore.UIStore.ToggleSearch | lib/stores/uiStore.ts:90 | only the search flag flips |
| UIStore.UIStore.CloseMobileMenu | lib/stores/uiStore.ts:92 | the menu is closed and nothing else changes |
| UIStore.UIStore.CloseSearch | lib/stores/uiStore.ts:94 | search is closed and nothing else changes |
| UIStore.ToggleTwiceAndReload | lib/stores/uiStore.ts:66-94 | toggling twice restores both panels, and a reload after choosing a language starts in it |
| AdminDashboard.DashboardBadge | app/admin/page.tsx:37-54 | the dashboard badge agrees with the table badge for every status, and reads Published exactly when the status is neither draft nor scheduled |

## Left out

- Rendering, styling, routing (`router.push`, `Link`), `alert` and the third-party widgets (FullCalendar, dnd-kit, the colour, emoji and date pickers) are not modelled. Dialog answers are boolean inputs, and an alert is recorded as the reason a submit stopped.
- Zustand subscriptions and React hooks are not modelled: each store is a class whose fields are replaced, and component state is passed in and returned.
- The clock and randomness (`Date.now()`, `new Date()`, `Math.random()`) are parameters, and so are local-time getters, `startOfMonth`, `formatDistanceToNow` and the locale date formatters.
- `recentlyAddedCount` (lib/stores/authorStore.ts:152-154) is left out because it depends on the clock and `startOfMonth`.
- Floating-point figures are left out: `averageArticlesPerAuthor`, the dashboard's bar widths and the electoral map's average reporting figure (which is NaN for an empty region list).
- ElectoralMapView.Percentage: `Math.round` of a double is modelled as rounding half up on exact rationals, so double rounding error is not captured.
- `slugify` in the article editor, `localeCompare` in the live results table and the time zone behind calendar days are function parameters. The live-results ordering lemmas assume `localeCompare` is a consistent comparison.
- `cn` (lib/utils.ts) only joins CSS class names and is not modelled.
- `toLowerCase`, `trim` and the case-insensitive patterns are modelled on ASCII letters and JavaScript's whitespace set. Unicode case mapping of other letters (including Thaana) is not modelled.
- `updateArticle`, `bulkUpdateStatus`, `bulkDelete` and `reassignCategoryForArticles` are called by the pages but not defined in `lib/stores/articleStore.ts`. The model records these calls without executing them. `getDashboardStats` (whose figures the dashboard only displays) and the table's single-article delete button (which calls the undefined `deleteArticle`) are not modelled.
- ArticlesPage.HandleBulkAction: assumes the `bulkUpdateStatus` and `bulkDelete` calls return. In the source each is a call of an undefined function: on a confirmed action it throws a `TypeError`, so `clearSelection` after it (app/admin/articles/page.tsx:93, 99, 109) never runs and the selection is kept. The contract states the evidently intended outcome, a cleared selection.
- CategoriesPage.CategoriesPage.ConfirmDelete: assumes the `reassignCategoryForArticles` call returns. In the source it calls an undefined function: when the category has articles it throws a `TypeError`, so `deleteCategory` and `setDeleteConfirm(null)` (app/admin/categories/page.tsx:109-110) never run, and the category and the open dialog stay. For a category without articles no call is made, and the model is exact.
- The seed contents of `lib/mockData.ts` and the candidate and region records of `lib/electionData.ts` are not modelled beyond what the lookup helpers and the race consistency lemma use. The seed records do not match the types in `lib/types.ts`, and region winners are stored data rather than derived from the counts.
- The translation dictionary's contents are a parameter of the lookup.
- `localStorage` and `navigator` access are modelled as values that may be missing or unreadable. `console.warn` is not modelled.
- `parseInt` is modelled on unbounded integers, without double precision for very long digit runs.
- CategoryEdits.TreeMembers and CategoryEdits.TreeShowsRooted assume non-empty ids. The walk up treats an empty parent id as no parent, while `buildTree` compares ids with `===`. Every generated id is non-empty.
- CategoryStore.CategoryStore.GetCategoryPath requires the walk up from the category to end. HasCircularDependency and MoveCategoryToParent require the check's loop to stop: the walk from the new parent must reach a root or meet the category being moved. On a cycle that does not hold that category, which `updateCategory` can create (CategoryEdits.UpdateCanCreateCycle, CategoryStore.TwoCycleCheck), the source's `while` loop never ends.
- RecentArticlesAreNewest: does not state that articles touched at the same time keep store order, although the sort used is stable.
- String comparisons (`localeCompare` aside) are on characters, not JavaScript's UTF-16 code units. The two orders differ only above the Basic Multilingual Plane.
- ElectoralMapView takes a region's entries as a sequence in the order `Object.entries` yields them. Property ordering of JavaScript objects is not modelled.
- UIStore.UIStore.SetLanguage: assumes `localStorage.setItem` succeeds in a browser. A failed save, which the source only logs, is not modelled.
- The admin store's `dateRange` filter is stored and reset but not applied, as in the pages.
- The editor's preview object and its image upload (object URLs) are not modelled.
- `components/editor/SchedulePicker.tsx` is not part of this model because it is built on local-time `Date` setters and a picker widget.
- `components/providers/LanguageProvider.tsx` (which mutates the DOM) and `fix-authors.js` (which rewrites files) are not part of this model.
- Presentation-only components are not part of this model: news cards, engagement widgets, ads, header, footer, election hero, race and candidate cards, author cards and statistics, selectors, layouts and the elections page.

## Findings

| source | as written | input that shows it | evidently intended | confidence | as-written member | corrected member |
|---|---|---|---|---|---|---|
| components/admin/CategoryForm.tsx:88-100 | slug uniqueness is checked on the untrimmed slug, but the trimmed slug is stored | slug "s " while another category has slug "s" | check uniqueness of the trimmed slug that is stored | not executed | CategoryForm.PaddedSlugSlipsThrough | CategoryForm.SubmitThenCreateKeepsSlugsUnique |
| components/admin/AuthorForm.tsx:79-102 | slug uniqueness is checked on the untrimmed slug, but the trimmed slug is stored | slug "s " while another author has slug "s" | check uniqueness of the trimmed slug that is stored | not executed | AuthorForm.PaddedAuthorSlugSlipsThrough | NewAuthorPage.SubmitKeepsAuthorsUnique |
| lib/stores/categoryStore.ts:79-87 | `updateCategory` rewrites `parentId` with no cycle check; on the resulting cycle the loop of `getCategoryPath` (161-174) never ends, nor does that of `hasCircularDependency` (197-210) for a category off the cycle | a top-level category a and its child b, then `updateCategory(a.id, { parentId: b.id })` followed by `getCategoryPath(a.id)` | a parent change refuses a parent that closes a cycle, as `moveCategoryToParent` does | not executed | CategoryEdits.UpdateCanCreateCycle | CategoryStore.CategoryStore.MoveCategoryToParent |
