# Library manager core, modelled in Dafny

A model of the core of a plugin-based library manager: a desktop application whose
features (books, users, loans and reports) each ship as a plugin jar. The model covers:

- **plugin loading**: turning jar entries into class names, and ordering discovered plugins
  case-insensitively by name and then by dependencies, in repeated passes until a pass
  makes no progress. It also reports the plugins left behind with their missing
  dependencies. Soft dependencies play no part in the order.
- **plugin activation**: each plugin gets a class loader whose parents are the application
  loader and its registered dependencies. Only a plugin whose `init` succeeds is enabled
  and registered.
- **lookup chains**: the combined plugin class loader (own jar first, then each parent) and
  resource resolution (the application's resources first, then each plugin's).
- **the reports linkage**: the reports plugin's in-memory repository, and the loans plugin's
  extension that registers its report there when the reports plugin is enabled.
- **the domain services and repositories**: books, users and loans over tables held as
  sequences of rows. This covers request validation, uniqueness guards, soft deletion,
  the availability provider singleton, the loan status computation and the loaned-books
  report query.
- **small UI state machines**: the sidebar's single highlighted tab, the UI controller's
  centre content, the paginated tables' buttons, and the entity-class registry of the
  Hibernate manager.

Each core file is modelled in its own form:

- Code that updates objects in place (the plugin controller, class loader, repositories,
  services, sidebar, tables, Hibernate manager and availability manager) is a `class`.
  Its methods carry `modifies` clauses and are proved against specification functions.
- Pure computations (ordering, lookups, queries, dates and validation) are functions,
  with lemmas about them.
- Loops in the source stay loops: resolving the load order, activating plugins, registering
  reports and deduplicating entity classes.

Some source files repeat code another one already holds, and one member models both:

- `app/src/main/java/br/edu/ifba/inf008/ui/components/SidebarPane.java` adds, selects and
  clicks tabs as `SidebarComponent.java` does (`Sidebar.Sidebar`).
- `core/src/main/java/br/edu/ifba/inf008/core/ui/components/TableOfContents.java` loads,
  reloads and paginates as `TableComponent.java` does, and capitalises the same way
  (`Pagination.PagedTable`, `Pagination.Capitalize`).
- `EditUserRequest.java` carries the same components under the same constraints as
  `CreateUserRequest.java` (`Users.UserRequest`).

Things outside the program become parameters:

- the jar contents and the outcome of instantiating and initialising each plugin;
- "today";
- the e-mail format check;
- whether another plugin's class loader is reachable;
- the other plugins' tables.

## Model

| member | source | states |
|---|---|---|
| PluginDiscovery.ReplaceChar | app/src/main/java/br/edu/ifba/inf008/infrastructure/controllers/PluginController.java:114 | every `/` of a jar entry becomes `.`, every other character and the length are kept |
| PluginDiscovery.RemoveAll | app/src/main/java/br/edu/ifba/inf008/infrastructure/controllers/PluginController.java:114 | deleting every occurrence of `.class` never lengthens the name |
| PluginDiscovery.RemoveAllKeepsAbsentChar | app/src/main/java/br/edu/ifba/inf008/infrastructure/controllers/PluginController.java:114 | deleting `.class` cannot introduce a character that was not in the name |
| PluginDiscovery.RemoveSuffix | app/src/main/java/br/edu/ifba/inf008/infrastructure/controllers/PluginController.java:114 | a name with no `.class` inside loses exactly its trailing `.class` |
| PluginDiscovery.ClassNameOf | app/src/main/java/br/edu/ifba/inf008/infrastructure/controllers/PluginController.java:113-115 | an entry yields a class name only if it ends in `.class`; the name lies in the plugin package and holds no `/` |
| PluginDiscovery.ReplaceCharAppend | app/src/main/java/br/edu/ifba/inf008/infrastructure/controllers/PluginController.java:114 | rewriting slashes distributes over appending a slash-free suffix such as `.class` |
| PluginDiscovery.ClassEntryName | app/src/main/java/br/edu/ifba/inf008/infrastructure/controllers/PluginController.java:113-115 | the entry for a class file of the plugin package yields exactly its dotted class name |
| PluginDiscovery.ClassNames | app/src/main/java/br/edu/ifba/inf008/infrastructure/controllers/PluginController.java:113-117 | the discovered class names are exactly the names of the entries the filter keeps |
| CaseInsensitive.Fold | app/src/main/java/br/edu/ifba/inf008/infrastructure/controllers/PluginController.java:156 | case folding keeps the length and folds each character on its own |
| CaseInsensitive.LexReflexive | app/src/main/java/br/edu/ifba/inf008/infrastructure/controllers/PluginController.java:156 | the lexicographic order on characters is reflexive |
| CaseInsensitive.LexTotal | app/src/main/java/br/edu/ifba/inf008/infrastructure/controllers/PluginController.java:156 | any two names are comparable |
| CaseInsensitive.LexTransitive | app/src/main/java/br/edu/ifba/inf008/infrastructure/controllers/PluginController.java:156 | the order is transitive |
| CaseInsensitive.LexAntisymmetric | app/src/main/java/br/edu/ifba/inf008/infrastructure/controllers/PluginController.java:156 | names ordered both ways are equal |
| CaseInsensitive.NameTotal | app/src/main/java/br/edu/ifba/inf008/infrastructure/controllers/PluginController.java:156 | the case-insensitive comparator is total |
| CaseInsensitive.NameTransitive | app/src/main/java/br/edu/ifba/inf008/infrastructure/controllers/PluginController.java:156 | the case-insensitive comparator is transitive |
| CaseInsensitive.NameEquivalent | app/src/main/java/br/edu/ifba/inf008/infrastructure/controllers/PluginController.java:156 | two names compare equal exactly when they fold to the same string |
| LoadOrder.InsertIsPermutation | app/src/main/java/br/edu/ifba/inf008/infrastructure/controllers/PluginController.java:156 | inserting into the sorted list adds exactly that plugin and loses none (multiset) |
| LoadOrder.InsertKeepsLowerBound | app/src/main/java/br/edu/ifba/inf008/infrastructure/controllers/PluginController.java:156 | inserting a plugin no smaller than a bound into a list bounded below keeps every name at or above the bound |
| LoadOrder.InsertKeepsSorted | app/src/main/java/br/edu/ifba/inf008/infrastructure/controllers/PluginController.java:156 | inserting into a name-sorted list keeps it sorted |
| LoadOrder.SortByNameSorts | app/src/main/java/br/edu/ifba/inf008/infrastructure/controllers/PluginController.java:156 | the sort yields a permutation of the plugins, sorted case-insensitively by name |
| LoadOrder.SortedArrangementIsUnique | app/src/main/java/br/edu/ifba/inf008/infrastructure/controllers/PluginController.java:156 | plugins whose names fold differently have exactly one sorted arrangement, so the sort's result does not depend on the discovery order |
| LoadOrder.InsertIsStable | app/src/main/java/br/edu/ifba/inf008/infrastructure/controllers/PluginController.java:156 | insertion puts a plugin after every plugin whose name folds to the same key |
| LoadOrder.SortIsStable | app/src/main/java/br/edu/ifba/inf008/infrastructure/controllers/PluginController.java:156 | the sort keeps the discovery order of plugins whose names differ only in case |
| LoadOrder.Pass | app/src/main/java/br/edu/ifba/inf008/infrastructure/controllers/PluginController.java:165-176 | one pass only appends to the load order and the leftovers, and places every pending plugin in one of them |
| LoadOrder.NamesAppend | app/src/main/java/br/edu/ifba/inf008/infrastructure/controllers/PluginController.java:171-172 | appending a plugin adds exactly its name to the loaded set |
| LoadOrder.AppendKeepsDependenciesFirst | app/src/main/java/br/edu/ifba/inf008/infrastructure/controllers/PluginController.java:170-172 | appending a plugin whose hard dependencies are loaded keeps every plugin after its dependencies |
| LoadOrder.PassPartitions | app/src/main/java/br/edu/ifba/inf008/infrastructure/controllers/PluginController.java:165-176 | a pass partitions the pending plugins between the order and the leftovers (multiset) |
| LoadOrder.PassKeepsInvariant | app/src/main/java/br/edu/ifba/inf008/infrastructure/controllers/PluginController.java:170-172 | a pass keeps the loaded set equal to the names in the order, and keeps dependencies first |
| LoadOrder.PassWithoutProgress | app/src/main/java/br/edu/ifba/inf008/infrastructure/controllers/PluginController.java:163-177 | a pass that adds nothing leaves every pending plugin ineligible and keeps them all, in order |
| LoadOrder.ResolveIsSound | app/src/main/java/br/edu/ifba/inf008/infrastructure/controllers/PluginController.java:161-177 | the loop ends with dependencies first, a partition of the input, and only ineligible leftovers |
| LoadOrder.LoadOrderIsSound | app/src/main/java/br/edu/ifba/inf008/infrastructure/controllers/PluginController.java:155-186 | for any discovered plugins: a partition, each hard dependency earlier in the order, each leftover missing a hard dependency |
| LoadOrder.DependencyPlacedBefore | app/src/main/java/br/edu/ifba/inf008/infrastructure/controllers/PluginController.java:170-172 | in an order with dependencies first, each dependency of a plugin occurs at an earlier index |
| LoadOrder.InsertWithoutSoft | app/src/main/java/br/edu/ifba/inf008/infrastructure/controllers/PluginController.java:170 | insertion commutes with dropping soft dependencies |
| LoadOrder.SortWithoutSoft | app/src/main/java/br/edu/ifba/inf008/infrastructure/controllers/PluginController.java:170 | the sort commutes with dropping soft dependencies |
| LoadOrder.PassWithoutSoft | app/src/main/java/br/edu/ifba/inf008/infrastructure/controllers/PluginController.java:170 | a pass commutes with dropping soft dependencies |
| LoadOrder.ResolveWithoutSoft | app/src/main/java/br/edu/ifba/inf008/infrastructure/controllers/PluginController.java:163-177 | the pass loop commutes with dropping soft dependencies |
| LoadOrder.SoftDependenciesIgnored | app/src/main/java/br/edu/ifba/inf008/infrastructure/controllers/PluginController.java:155-186 | soft dependencies never change the load order or the leftovers |
| LoadOrder.MissingDependencies | app/src/main/java/br/edu/ifba/inf008/infrastructure/controllers/PluginController.java:181-182 | the names reported missing are exactly the hard dependencies not loaded |
| LoadOrder.RunPass | app/src/main/java/br/edu/ifba/inf008/infrastructure/controllers/PluginController.java:164-176 | the loop body computes one pass, and reports progress exactly when the order grew |
| LoadOrder.ReportLeftovers | app/src/main/java/br/edu/ifba/inf008/infrastructure/controllers/PluginController.java:179-183 | one report per leftover, naming it and exactly its unloaded hard dependencies |
| LoadOrder.ResolveLoadOrder | app/src/main/java/br/edu/ifba/inf008/infrastructure/controllers/PluginController.java:155-186 | the method's order and leftovers are the specified load order: dependencies first, a partition of the input, and a non-empty missing list for each leftover |
| BundledPlugins.ResolveFour | app/src/main/java/br/edu/ifba/inf008/infrastructure/controllers/PluginController.java:163-177 | four plugins where one depends on two others resolve in one pass, with the dependent one last |
| BundledPlugins.LoadOrderOfFour | app/src/main/java/br/edu/ifba/inf008/infrastructure/controllers/PluginController.java:156-185 | four plugins with distinct first letters, one depending on two others, resolve to the same order for every discovery order |
| BundledPlugins.BundledLoadOrder | plugins/loans-plugin/src/main/java/br/edu/ifba/inf008/plugins/loans/LoanManagement.java:17 | for every discovery order of the four bundled plugins they load as books, reports, users, loans |
| BundledPlugins.PassUnsatisfied | app/src/main/java/br/edu/ifba/inf008/infrastructure/controllers/PluginController.java:165-176 | a plugin whose dependency is absent stays behind after a pass |
| BundledPlugins.ResolveUnsatisfied | app/src/main/java/br/edu/ifba/inf008/infrastructure/controllers/PluginController.java:179-185 | a plugin whose dependency is absent is left out of the load order |
| BundledPlugins.DependencyNamesAreCaseSensitive | app/src/main/java/br/edu/ifba/inf008/infrastructure/controllers/PluginController.java:170 | a dependency named in another case is not satisfied, although sorting ignores case |
| LookupChain.FirstHitIsFirst | app/src/main/java/br/edu/ifba/inf008/infrastructure/utils/CombinedPluginClassLoader.java:36-41 | a lookup finds a value exactly when some loader has the key and no earlier loader has it |
| LookupChain.FirstHitMisses | app/src/main/java/br/edu/ifba/inf008/infrastructure/utils/CombinedPluginClassLoader.java:36-43 | a lookup fails exactly when no loader in the chain has the key |
| LookupChain.FirstHitConcat | app/src/main/java/br/edu/ifba/inf008/infrastructure/controllers/UIController.java:124-140 | searching a chain split in two is searching the first part, then the second |
| ClassLoading.CombinedPluginClassLoader.constructor | app/src/main/java/br/edu/ifba/inf008/infrastructure/utils/CombinedPluginClassLoader.java:16-19 | the loader keeps its own jar and its parents, in order |
| ClassLoading.CombinedPluginClassLoader.FindClass | app/src/main/java/br/edu/ifba/inf008/infrastructure/utils/CombinedPluginClassLoader.java:30-44 | own classes win; otherwise the first parent that defines the class; otherwise a failure naming the class |
| ClassLoading.CombinedPluginClassLoader.GetResource | app/src/main/java/br/edu/ifba/inf008/infrastructure/utils/CombinedPluginClassLoader.java:53-67 | the bootstrap resources win, then the plugin's own jar, then each parent in order |
| PluginActivation.Registered | app/src/main/java/br/edu/ifba/inf008/infrastructure/controllers/PluginController.java:203-205 | the loaders collected are exactly the registered loaders of the named plugins |
| PluginActivation.InitialisedNamesAppend | app/src/main/java/br/edu/ifba/inf008/infrastructure/controllers/PluginController.java:218-219 | activating one more plugin adds its name exactly when its init succeeded |
| PluginActivation.EnabledAreInitialised | app/src/main/java/br/edu/ifba/inf008/infrastructure/controllers/PluginController.java:218-221 | the enabled list, the loader list and the registry hold exactly the plugins whose init succeeded, in load order |
| PluginActivation.EnabledExactlyWhenInitialised | app/src/main/java/br/edu/ifba/inf008/infrastructure/controllers/PluginController.java:218-219 | a name is enabled if and only if some plugin with that name initialised |
| PluginActivation.InitialisedNamesMembers | app/src/main/java/br/edu/ifba/inf008/infrastructure/controllers/PluginController.java:218-219 | the initialised names are exactly those of plugins whose init succeeded |
| PluginActivation.RegistryHoldsLatest | app/src/main/java/br/edu/ifba/inf008/infrastructure/controllers/PluginController.java:221 | the registry maps a name to the loader of the last plugin by that name that initialised, built from the parents registered before it |
| PluginActivation.ParentsAreRegisteredDependencies | app/src/main/java/br/edu/ifba/inf008/infrastructure/controllers/PluginController.java:200-209 | a plugin's parent loaders are the application loader first, then the registered loaders of its hard and soft dependencies |
| PluginActivation.CollectRegistered | app/src/main/java/br/edu/ifba/inf008/infrastructure/controllers/PluginController.java:203-205 | the loop collects the specified registered loaders |
| PluginActivation.CollectParents | app/src/main/java/br/edu/ifba/inf008/infrastructure/controllers/PluginController.java:200-209 | the loop builds the specified parent list |
| PluginActivation.ActivationAppends | app/src/main/java/br/edu/ifba/inf008/infrastructure/controllers/PluginController.java:198-230 | activation appends the initialised names to what was enabled before |
| PluginActivation.PluginController.constructor | app/src/main/java/br/edu/ifba/inf008/infrastructure/controllers/PluginController.java:34-35 | a new controller has nothing enabled and no plugin loaders |
| PluginActivation.PluginController.IsPluginEnabled | app/src/main/java/br/edu/ifba/inf008/infrastructure/controllers/PluginController.java:65-67 | a plugin is enabled exactly when its name is in the enabled list |
| PluginActivation.PluginController.LoadPlugins | app/src/main/java/br/edu/ifba/inf008/infrastructure/controllers/PluginController.java:195-232 | the activation loop's enabled list, loaders and registry are the specified activation of the load order |
| PluginActivation.PluginController.Init | app/src/main/java/br/edu/ifba/inf008/infrastructure/controllers/PluginController.java:78-87 | after start-up the enabled plugins are those of the computed load order whose init succeeded, and the class loaders are the ones activation built for them |
| Reports.Stored | plugins/reports-plugin/src/main/java/br/edu/ifba/inf008/plugins/reports/infrastructure/repositories/ReportsRepository.java:43-46 | saving a report adds exactly its id to the keys |
| Reports.Removed | plugins/reports-plugin/src/main/java/br/edu/ifba/inf008/plugins/reports/infrastructure/repositories/ReportsRepository.java:50-54 | deleting a report removes exactly its id |
| Reports.Get | plugins/reports-plugin/src/main/java/br/edu/ifba/inf008/plugins/reports/infrastructure/repositories/ReportsRepository.java:33-35 | a lookup succeeds exactly when the id is stored |
| Reports.StoredIsFound | plugins/reports-plugin/src/main/java/br/edu/ifba/inf008/plugins/reports/infrastructure/repositories/ReportsRepository.java:43-46 | a saved report is found under its id, other reports are unchanged, and the map stays keyed by id |
| Reports.StoreAfterRemove | plugins/reports-plugin/src/main/java/br/edu/ifba/inf008/plugins/reports/infrastructure/repositories/ReportsRepository.java:43-46 | saving after deleting is saving; saving twice is saving once |
| Reports.ReportsRepository.constructor | plugins/reports-plugin/src/main/java/br/edu/ifba/inf008/plugins/reports/infrastructure/repositories/ReportsRepository.java:17-30 | the repository starts empty |
| Reports.ReportsRepository.FindById | plugins/reports-plugin/src/main/java/br/edu/ifba/inf008/plugins/reports/infrastructure/repositories/ReportsRepository.java:33-35 | finds the report stored under the id, or nothing |
| Reports.ReportsRepository.FindAll | plugins/reports-plugin/src/main/java/br/edu/ifba/inf008/plugins/reports/infrastructure/repositories/ReportsRepository.java:38-40 | lists every stored report exactly once |
| Reports.ReportsRepository.Save | plugins/reports-plugin/src/main/java/br/edu/ifba/inf008/plugins/reports/infrastructure/repositories/ReportsRepository.java:43-47 | stores the report under its id and answers null |
| Reports.ReportsRepository.Delete | plugins/reports-plugin/src/main/java/br/edu/ifba/inf008/plugins/reports/infrastructure/repositories/ReportsRepository.java:50-54 | removes the report's id; deleting null changes nothing |
| Reports.ReportsRepository.FindOne | plugins/reports-plugin/src/main/java/br/edu/ifba/inf008/plugins/reports/infrastructure/repositories/ReportsRepository.java:61-63 | field lookups are unsupported and always answer empty |
| Reports.ReportsRepository.FindAllBy | plugins/reports-plugin/src/main/java/br/edu/ifba/inf008/plugins/reports/infrastructure/repositories/ReportsRepository.java:66-68 | field queries are unsupported and always answer an empty list |
| Reports.ReportsRepository.FindPage | plugins/reports-plugin/src/main/java/br/edu/ifba/inf008/plugins/reports/infrastructure/repositories/ReportsRepository.java:71-79 | paged queries are unsupported and answer null |
| ReportsExtension.Registration | plugins/loans-plugin/src/main/java/br/edu/ifba/inf008/plugins/loans/application/extensions/ReportsExtension.java:32-41 | registration fails with the reports-unavailable error exactly when some report class cannot be instantiated |
| ReportsExtension.SavedBeforeFailureStays | plugins/loans-plugin/src/main/java/br/edu/ifba/inf008/plugins/loans/application/extensions/ReportsExtension.java:32-37 | a report saved before a failing one stays registered |
| ReportsExtension.SavedKept | plugins/loans-plugin/src/main/java/br/edu/ifba/inf008/plugins/loans/application/extensions/ReportsExtension.java:32-37 | a report saved earlier under another id survives registration |
| ReportsExtension.RegistrationOnlyAdds | plugins/loans-plugin/src/main/java/br/edu/ifba/inf008/plugins/loans/application/extensions/ReportsExtension.java:32-37 | registration never removes a report and keeps the repository keyed by id |
| ReportsExtension.Initialize | plugins/loans-plugin/src/main/java/br/edu/ifba/inf008/plugins/loans/application/extensions/ReportsExtension.java:15-42 | with the reports plugin disabled nothing happens; with it unreachable it fails and nothing is saved; otherwise the loop performs the specified registration |
| ReportsExtension.LoanedBooksReportRegistered | plugins/loans-plugin/src/main/java/br/edu/ifba/inf008/plugins/loans/application/extensions/ReportsExtension.java:11-13 | when the loaned-books report can be built, initialisation succeeds and registers exactly it |
| Sidebar.RemoveFirst | core/src/main/java/br/edu/ifba/inf008/core/ui/components/SidebarComponent.java:93 | removing a style class removes one occurrence (multiset) |
| Sidebar.RemoveAbsent | core/src/main/java/br/edu/ifba/inf008/core/ui/components/SidebarComponent.java:93 | removing a style class the button lacks leaves it unchanged |
| Sidebar.HighlightIsUnique | core/src/main/java/br/edu/ifba/inf008/core/ui/components/SidebarComponent.java:91-100 | at most one tab button is highlighted, and it is the selected tab's |
| Sidebar.DistinctTabsDistinctButtons | core/src/main/java/br/edu/ifba/inf008/core/ui/components/SidebarComponent.java:82-83 | distinct tab names map to distinct buttons |
| Sidebar.Cleared | core/src/main/java/br/edu/ifba/inf008/core/ui/components/SidebarComponent.java:92-94 | clearing the highlight keeps every button's text |
| Sidebar.Marked | core/src/main/java/br/edu/ifba/inf008/core/ui/components/SidebarComponent.java:96-99 | highlighting keeps every button's text |
| Sidebar.ClearingUnhighlightsAll | core/src/main/java/br/edu/ifba/inf008/core/ui/components/SidebarComponent.java:92-94 | after clearing the previous selection no button is highlighted |
| Sidebar.MarkingHighlightsOne | core/src/main/java/br/edu/ifba/inf008/core/ui/components/SidebarComponent.java:96-99 | highlighting the new tab leaves exactly its button highlighted |
| Sidebar.Sidebar.constructor | core/src/main/java/br/edu/ifba/inf008/core/ui/components/SidebarComponent.java:38-45 | a new sidebar has no tabs and no selection |
| Sidebar.Sidebar.AddTab | core/src/main/java/br/edu/ifba/inf008/core/ui/components/SidebarComponent.java:62-84 | adds a plain sidebar button for the tab and records it under the tab's name |
| Sidebar.Sidebar.SelectTab | core/src/main/java/br/edu/ifba/inf008/core/ui/components/SidebarComponent.java:91-100 | fails with a null dereference exactly when the previous selection has no button; otherwise moves the single highlight to the new tab |
| Sidebar.Sidebar.Click | core/src/main/java/br/edu/ifba/inf008/core/ui/components/SidebarComponent.java:71-80 | clicking the selected tab does nothing; clicking another selects it and notifies the listener with its name |
| UI.CorrectClassLoaderPath | app/src/main/java/br/edu/ifba/inf008/infrastructure/controllers/UIController.java:276-278 | exactly one leading `/` is dropped; other paths are unchanged |
| UI.CorrectedPathRoundTrip | app/src/main/java/br/edu/ifba/inf008/infrastructure/controllers/UIController.java:276-278 | correcting `/p` gives back `p`, and a second slash survives |
| UI.ResolvePrefersApplication | app/src/main/java/br/edu/ifba/inf008/infrastructure/controllers/UIController.java:124-140 | a resource of the application wins; otherwise the first plugin loader that has it |
| UI.TryLoadStylesheet | app/src/main/java/br/edu/ifba/inf008/infrastructure/controllers/UIController.java:94-114 | a stylesheet is added to the scene exactly when the loader has the corrected path |
| UI.UIController.GetMainScene | app/src/main/java/br/edu/ifba/inf008/infrastructure/controllers/UIController.java:53-60 | fails exactly when no scene has been set |
| UI.UIController.LoadStylesheetToScene | app/src/main/java/br/edu/ifba/inf008/infrastructure/controllers/UIController.java:70-92 | the stylesheet found first (application, then plugins) is added to the scene, or nothing |
| UI.UIController.LoadIcon | app/src/main/java/br/edu/ifba/inf008/infrastructure/controllers/UIController.java:117-145 | the icon found first, otherwise the house icon; fails only when the house icon is missing too |
| UI.UIController.CreateTab | app/src/main/java/br/edu/ifba/inf008/infrastructure/controllers/UIController.java:220-229 | a tab with content is added to the sidebar and its content stored; a tab without content is refused |
| UI.UIController.DisplayNullAlert | app/src/main/java/br/edu/ifba/inf008/infrastructure/controllers/UIController.java:264-274 | the centre shows only the no-plugins alert |
| UI.UIController.UpdateCenterContent | app/src/main/java/br/edu/ifba/inf008/infrastructure/controllers/UIController.java:251-262 | the centre shows the tab's content, or the alert when the tab has none |
| UI.UIController.PostPluginInit | app/src/main/java/br/edu/ifba/inf008/infrastructure/controllers/UIController.java:63-67 | the alert is shown exactly when no plugin was enabled |
| UI.UIController.ClickTab | app/src/main/java/br/edu/ifba/inf008/infrastructure/controllers/UIController.java:180 | clicking a new tab selects it and shows its content in the centre |
| Hibernate.Dedup | core/src/main/java/br/edu/ifba/inf008/core/infrastructure/managers/HibernateManager.java:58-62 | deduplication keeps exactly the same classes |
| Hibernate.DedupHasNoDuplicates | core/src/main/java/br/edu/ifba/inf008/core/infrastructure/managers/HibernateManager.java:58-62 | the deduplicated list has no repeats |
| Hibernate.DedupOfDistinct | core/src/main/java/br/edu/ifba/inf008/core/infrastructure/managers/HibernateManager.java:58-62 | deduplicating a list without repeats changes nothing |
| Hibernate.RegisterAllIsDedup | core/src/main/java/br/edu/ifba/inf008/core/infrastructure/managers/HibernateManager.java:58-62 | registering classes one by one is deduplicating the concatenation |
| Hibernate.RegisterIsIdempotent | core/src/main/java/br/edu/ifba/inf008/core/infrastructure/managers/HibernateManager.java:58-62 | registering the same classes twice is registering them once |
| Hibernate.RegisteredAreKept | core/src/main/java/br/edu/ifba/inf008/core/infrastructure/managers/HibernateManager.java:58-62 | every registered and every newly registered class is in the list |
| Hibernate.ReregisterKeeps | core/src/main/java/br/edu/ifba/inf008/core/infrastructure/managers/HibernateManager.java:59 | registering classes already present changes nothing |
| Hibernate.HibernateManager.constructor | core/src/main/java/br/edu/ifba/inf008/core/infrastructure/managers/HibernateManager.java:22 | the manager starts with no classes and no factory |
| Hibernate.HibernateManager.Contains | core/src/main/java/br/edu/ifba/inf008/core/infrastructure/managers/HibernateManager.java:59 | the loop finds a class exactly when it is registered |
| Hibernate.HibernateManager.RegisterEntityClass | core/src/main/java/br/edu/ifba/inf008/core/infrastructure/managers/HibernateManager.java:58-62 | a class is appended unless already registered |
| Hibernate.HibernateManager.BuildSessionFactory | core/src/main/java/br/edu/ifba/inf008/core/infrastructure/managers/HibernateManager.java:29-50 | the factory is built, open, over exactly the registered classes |
| Hibernate.HibernateManager.ShutdownSessionFactory | core/src/main/java/br/edu/ifba/inf008/core/infrastructure/managers/HibernateManager.java:68-72 | an existing factory is closed; no factory stays no factory |
| Hibernate.HibernateManager.GetSession | core/src/main/java/br/edu/ifba/inf008/core/infrastructure/managers/HibernateManager.java:80-87 | fails exactly when no factory was built; a session sees the factory's classes |
| Pagination.TotalPages | core/src/main/java/br/edu/ifba/inf008/core/ui/components/table/TableComponent.java:189 | the page count is the ceiling of total over size |
| Pagination.ControlsMatchContent | core/src/main/java/br/edu/ifba/inf008/core/ui/components/table/TableComponent.java:192-193 | an enabled next button means a further row exists; an enabled previous button means a previous page exists |
| Pagination.Capitalize | core/src/main/java/br/edu/ifba/inf008/core/ui/components/table/TableComponent.java:323-325 | upper-cases the first character only, and fails on the empty string |
| Pagination.CapitalizeIsIdempotent | core/src/main/java/br/edu/ifba/inf008/core/ui/components/table/TableComponent.java:323-325 | capitalising twice is capitalising once |
| Pagination.PagedTable.constructor | core/src/main/java/br/edu/ifba/inf008/core/ui/components/table/TableComponent.java:54-70 | a new table uses page size 10 and loads page 0 |
| Pagination.PagedTable.LoadPage | core/src/main/java/br/edu/ifba/inf008/core/ui/components/table/TableComponent.java:164-182 | a loaded page replaces the rows, total, page and buttons; a failed or negative load changes nothing |
| Pagination.PagedTable.UpdatePaginationState | core/src/main/java/br/edu/ifba/inf008/core/ui/components/table/TableComponent.java:188-194 | the label shows page+1 of at least one page, and the buttons are disabled at the first and the last page |
| Pagination.PagedTable.Previous | core/src/main/java/br/edu/ifba/inf008/core/ui/components/table/TableComponent.java:77 | the previous button loads the page before |
| Pagination.PagedTable.Next | core/src/main/java/br/edu/ifba/inf008/core/ui/components/table/TableComponent.java:78 | the next button loads the page after |
| Pagination.PagedTable.Reload | core/src/main/java/br/edu/ifba/inf008/core/ui/components/table/TableComponent.java:200-202 | reloading loads the current page again |
| Query.Filter | core/src/main/java/br/edu/ifba/inf008/core/infrastructure/repositories/impl/HibernateRepository.java:120-149 | a where-clause keeps exactly the matching rows, in table order |
| Query.FilterConcat | core/src/main/java/br/edu/ifba/inf008/core/infrastructure/repositories/impl/HibernateRepository.java:120-149 | filtering two parts of a table is filtering the whole |
| Query.CountIsFilterLength | core/src/main/java/br/edu/ifba/inf008/core/infrastructure/repositories/impl/HibernateRepository.java:139-144 | the count query agrees with the length of the filtered rows |
| Query.IndexWhere | core/src/main/java/br/edu/ifba/inf008/core/infrastructure/repositories/impl/HibernateRepository.java:53-63 | finds the first matching row, or none when no row matches |
| Query.FirstMatch | core/src/main/java/br/edu/ifba/inf008/core/infrastructure/repositories/impl/HibernateRepository.java:53-63 | answers a matching row, and empty exactly when none matches |
| Query.FirstMatchOfUnique | core/src/main/java/br/edu/ifba/inf008/core/infrastructure/repositories/impl/HibernateRepository.java:53-63 | on a unique column the lookup answers the one matching row |
| Query.Slice | core/src/main/java/br/edu/ifba/inf008/core/infrastructure/repositories/impl/HibernateRepository.java:135-137 | a page holds at most the limit of rows, taken in order from the offset |
| Query.SlicesConcatenate | core/src/main/java/br/edu/ifba/inf008/core/infrastructure/repositories/impl/HibernateRepository.java:135-137 | consecutive pages concatenate into one longer page |
| Query.PagesCoverRows | core/src/main/java/br/edu/ifba/inf008/core/infrastructure/repositories/impl/HibernateRepository.java:135-137 | reading pages 0 to n-1 lists the first n times size rows |
| Validation.Utf16Length | plugins/books-plugin/src/main/java/br/edu/ifba/inf008/plugins/books/infrastructure/models/request/CreateBookRequest.java:13-35 | `@Size` measures `String.length()`: at least one unit per character, two for a character above U+FFFF, and exactly the character count iff none is |
| Validation.Trim | plugins/books-plugin/src/main/java/br/edu/ifba/inf008/plugins/books/infrastructure/models/request/CreateBookRequest.java:14-16 | trimming yields no longer a string, without blanks at its ends |
| Validation.TrimEmptyIffBlank | plugins/books-plugin/src/main/java/br/edu/ifba/inf008/plugins/books/infrastructure/models/request/CreateBookRequest.java:14-16 | trimming leaves nothing exactly when every character is whitespace or control |
| Validation.NotBlankIsTrimmedNonEmpty | plugins/books-plugin/src/main/java/br/edu/ifba/inf008/plugins/books/infrastructure/models/request/CreateBookRequest.java:14-16 | `@NotBlank` holds exactly when the value is present and non-empty once trimmed |
| Decimal.ToDecimal | plugins/books-plugin/src/main/java/br/edu/ifba/inf008/plugins/books/application/services/BookService.java:87-88 | an id renders as a non-empty string of digits |
| Decimal.ParseToDecimal | plugins/books-plugin/src/main/java/br/edu/ifba/inf008/plugins/books/application/services/BookService.java:87-88 | the rendering of an id reads back as that id |
| Decimal.ToDecimalInjective | plugins/books-plugin/src/main/java/br/edu/ifba/inf008/plugins/books/application/services/BookService.java:87-88 | distinct ids render differently |
| Calendar.PlusDays | plugins/loans-plugin/src/main/java/br/edu/ifba/inf008/plugins/loans/domain/entities/Loan.java:115 | adding days yields a valid date no earlier in years |
| Calendar.PlusDaysBetween | plugins/loans-plugin/src/main/java/br/edu/ifba/inf008/plugins/loans/domain/entities/Loan.java:107-109 | adding the days between two dates to the first gives the second |
| Calendar.PlusDaysAdvances | plugins/loans-plugin/src/main/java/br/edu/ifba/inf008/plugins/loans/domain/entities/Loan.java:115 | adding days never goes back, and moves forward exactly when the count is positive |
| Calendar.BetweenPlusDays | plugins/loans-plugin/src/main/java/br/edu/ifba/inf008/plugins/loans/domain/entities/Loan.java:107-109 | the days between a date and that date plus n are n |
| Calendar.DaysBetweenWithinYear | plugins/loans-plugin/src/main/java/br/edu/ifba/inf008/plugins/loans/domain/entities/Loan.java:107-109 | within one year the days between two dates are the difference of their days of the year |
| Calendar.PlusDaysSplit | plugins/loans-plugin/src/main/java/br/edu/ifba/inf008/plugins/loans/domain/entities/Loan.java:115 | adding m days and then n is adding m+n |
| Books.NewBook | plugins/books-plugin/src/main/java/br/edu/ifba/inf008/plugins/books/domain/entities/Book.java:50-57 | a new book has no id, zero copies and is active |
| Books.SetName | plugins/books-plugin/src/main/java/br/edu/ifba/inf008/plugins/books/domain/entities/Book.java:133-136 | setting the name sets the title and nothing else |
| Books.ValidCreateRequestBounds | plugins/books-plugin/src/main/java/br/edu/ifba/inf008/plugins/books/infrastructure/models/request/CreateBookRequest.java:13-35 | a valid request has a non-blank ISBN of at most 20 UTF-16 units, title and author of at most 100, a year in 1900 to 2100 and 0 to 1000 copies |
| Books.FindById | core/src/main/java/br/edu/ifba/inf008/core/infrastructure/repositories/impl/HibernateRepository.java:38-44 | finds the row with the id, deactivated or not, or nothing |
| Books.FindByIsbn | plugins/books-plugin/src/main/java/br/edu/ifba/inf008/plugins/books/infrastructure/repositories/BookRepository.java:53-55 | finds the row with the ISBN, or empty exactly when none has it |
| Books.LookupsFindTheRow | plugins/books-plugin/src/main/java/br/edu/ifba/inf008/plugins/books/domain/entities/Book.java:39 | in a well-keyed table every row is what its id and its ISBN find |
| Books.FindAllNonDeactivated | plugins/books-plugin/src/main/java/br/edu/ifba/inf008/plugins/books/infrastructure/repositories/BookRepository.java:43-45 | lists exactly the active books |
| Books.FindAllNonDeactivatedPage | plugins/books-plugin/src/main/java/br/edu/ifba/inf008/plugins/books/infrastructure/repositories/BookRepository.java:34-36 | the page is the page-th slice of at most size of the active books in table order, with the total number of active books |
| Books.NonDeactivatedPagesCoverAll | plugins/books-plugin/src/main/java/br/edu/ifba/inf008/plugins/books/infrastructure/repositories/BookRepository.java:34-36 | reading pages until the total is reached lists every active book once, in order |
| Books.Tombstone | plugins/books-plugin/src/main/java/br/edu/ifba/inf008/plugins/books/application/services/BookService.java:87-88 | the deleted book's ISBN keeps the old ISBN followed by `#` and more |
| Books.TombstonesDiffer | plugins/books-plugin/src/main/java/br/edu/ifba/inf008/plugins/books/application/services/BookService.java:87-88 | a tombstone never equals the old ISBN, and distinct ids give distinct tombstones |
| Loans.NewLoan | plugins/loans-plugin/src/main/java/br/edu/ifba/inf008/plugins/loans/domain/entities/Loan.java:45-52 | a new loan is made today and not returned |
| Loans.DueDate | plugins/loans-plugin/src/main/java/br/edu/ifba/inf008/plugins/loans/domain/entities/Loan.java:115 | the due date is a valid date after the loan date |
| Loans.GetStatusAsWritten | plugins/loans-plugin/src/main/java/br/edu/ifba/inf008/plugins/loans/domain/entities/Loan.java:103-123 | as written: the days late are a difference of days of the year, and a returned loan without a loan date fails |
| Loans.GetStatus | plugins/loans-plugin/src/main/java/br/edu/ifba/inf008/plugins/loans/domain/entities/Loan.java:103-123 | loaned until the due date, then overdue by the calendar days past it; returned on time or late by the calendar days past it |
| Loans.DaysLate | plugins/loans-plugin/src/main/java/br/edu/ifba/inf008/plugins/loans/domain/entities/Loan.java:117-120 | a date after the due date is a positive number of days past it |
| Loans.StatusAgreesWithinYear | plugins/loans-plugin/src/main/java/br/edu/ifba/inf008/plugins/loans/domain/entities/Loan.java:103-123 | the written status is right whenever the due date and the day compared lie in the same year |
| Loans.OverdueAcrossNewYear | plugins/loans-plugin/src/main/java/br/edu/ifba/inf008/plugins/loans/domain/entities/Loan.java:107-109 | a loan due across a new year is reported overdue by a negative count |
| Loans.CountByBookIdAndNotReturned | plugins/loans-plugin/src/main/java/br/edu/ifba/inf008/plugins/loans/infrastructure/repositories/LoanRepository.java:36-42 | counts exactly the unreturned loans of the book; zero exactly when there are none |
| Loans.ReturnLowersCount | plugins/loans-plugin/src/main/java/br/edu/ifba/inf008/plugins/loans/infrastructure/repositories/LoanRepository.java:36-42 | returning one of a book's loans lowers its count by one, and others' by none |
| Loans.ExistsByUserIdAndBookIdAndNotReturned | plugins/loans-plugin/src/main/java/br/edu/ifba/inf008/plugins/loans/infrastructure/repositories/LoanRepository.java:51-58 | holds exactly when the user has an unreturned loan of the book |
| Loans.FindAllByBookIdAndNotReturned | plugins/loans-plugin/src/main/java/br/edu/ifba/inf008/plugins/loans/infrastructure/repositories/LoanRepository.java:68-84 | a page of the book's unreturned loans, with their total |
| Loans.FindAll | core/src/main/java/br/edu/ifba/inf008/core/infrastructure/repositories/impl/HibernateRepository.java:89-110 | the loans from position page·size on, exactly min(size, what remains) of them in table order, with their total |
| Loans.LoanedBookIds | plugins/loans-plugin/src/main/java/br/edu/ifba/inf008/plugins/loans/infrastructure/repositories/LoanRepository.java:95-101 | the distinct ids of books with an unreturned loan |
| Loans.InformationRows | plugins/loans-plugin/src/main/java/br/edu/ifba/inf008/plugins/loans/infrastructure/repositories/LoanRepository.java:112-127 | one row per book: title, total copies, loaned copies and what is left; fails exactly when a book's copies are null |
| Loans.LoanedIdsPage | plugins/loans-plugin/src/main/java/br/edu/ifba/inf008/plugins/loans/infrastructure/repositories/LoanRepository.java:95-101 | the page of loaned book ids holds at most size ids, each of a book with a loan out |
| Loans.Chosen | plugins/loans-plugin/src/main/java/br/edu/ifba/inf008/plugins/loans/infrastructure/repositories/LoanRepository.java:107-110 | the books picked are exactly those whose id is on the page, in table order |
| Loans.ChosenRowsFail | plugins/loans-plugin/src/main/java/br/edu/ifba/inf008/plugins/loans/infrastructure/repositories/LoanRepository.java:112-127 | the rows fail exactly when a book on the page has a null copy count |
| Loans.ChosenRowsCover | plugins/loans-plugin/src/main/java/br/edu/ifba/inf008/plugins/loans/infrastructure/repositories/LoanRepository.java:112-127 | every book on the page has its row |
| Loans.ChosenRowsAreOnPage | plugins/loans-plugin/src/main/java/br/edu/ifba/inf008/plugins/loans/infrastructure/repositories/LoanRepository.java:112-127 | every row is the row of a book on the page |
| Loans.FindLoanedBooks | plugins/loans-plugin/src/main/java/br/edu/ifba/inf008/plugins/loans/infrastructure/repositories/LoanRepository.java:93-138 | an empty id page yields a total of 0 and no rows; otherwise it fails exactly when a book on the page has null copies, and else every book on the page has its row (id, title, total, loans out, available) and every row is such a book's with a loan out, with the number of distinct loaned books |
| Loans.LoanedRowsAreOut | plugins/loans-plugin/src/main/java/br/edu/ifba/inf008/plugins/loans/infrastructure/repositories/LoanRepository.java:112-127 | every report row is a book with a loan out |
| Loans.IndexOfId | core/src/main/java/br/edu/ifba/inf008/core/infrastructure/repositories/impl/HibernateRepository.java:38-44 | the position of the loan with the id, or none exactly when no loan has it |
| Availability.DefaultAvailableCopies | plugins/books-plugin/src/main/java/br/edu/ifba/inf008/plugins/books/infrastructure/providers/impl/DefaultBookAvailabilityProvider.java:16-21 | a book's copies, or 0 when it is missing or has none |
| Availability.LoanedAvailableCopies | plugins/loans-plugin/src/main/java/br/edu/ifba/inf008/plugins/loans/infrastructure/providers/LoanedBooksAvailabilityProvider.java:31-41 | copies minus unreturned loans; equal to the copies exactly when none is out |
| Availability.ReturnFreesOneCopy | plugins/loans-plugin/src/main/java/br/edu/ifba/inf008/plugins/loans/infrastructure/providers/LoanedBooksAvailabilityProvider.java:31-41 | returning a loan frees one copy of its book |
| Availability.LoanTakesOneCopy | plugins/loans-plugin/src/main/java/br/edu/ifba/inf008/plugins/loans/infrastructure/providers/LoanedBooksAvailabilityProvider.java:31-41 | a new loan takes one copy of its book |
| Availability.ManagerSlot.constructor | plugins/books-plugin/src/main/java/br/edu/ifba/inf008/plugins/books/infrastructure/managers/BookAvailabilityManager.java:10 | no manager instance exists at first |
| Availability.BookAvailabilityManager.constructor | plugins/books-plugin/src/main/java/br/edu/ifba/inf008/plugins/books/infrastructure/managers/BookAvailabilityManager.java:14-18 | a new manager uses the default provider and becomes the instance |
| Availability.BookAvailabilityManager.SetProvider | plugins/books-plugin/src/main/java/br/edu/ifba/inf008/plugins/books/infrastructure/managers/BookAvailabilityManager.java:24-26 | replaces the provider |
| Availability.BookAvailabilityManager.GetAvailableCopies | plugins/books-plugin/src/main/java/br/edu/ifba/inf008/plugins/books/infrastructure/managers/BookAvailabilityManager.java:28-30 | answers the current provider's count |
| Availability.BookAvailabilityManager.IsBookAvailable | plugins/books-plugin/src/main/java/br/edu/ifba/inf008/plugins/books/infrastructure/managers/BookAvailabilityManager.java:32-36 | a book is available exactly when its count is positive |
| Availability.InitializeLoanedProvider | plugins/loans-plugin/src/main/java/br/edu/ifba/inf008/plugins/loans/infrastructure/providers/LoanedBooksAvailabilityProvider.java:20-29 | fails with a null dereference exactly when no manager exists; otherwise installs the loans-aware provider |
| BookServices.IsbnTakenIff | plugins/books-plugin/src/main/java/br/edu/ifba/inf008/plugins/books/application/services/BookService.java:146-153 | the ISBN guard fires exactly when another book holds the ISBN |
| BookServices.LockedCopiesByProvider | plugins/books-plugin/src/main/java/br/edu/ifba/inf008/plugins/books/application/services/BookService.java:163-174 | the locked copies are 0 with the default provider and the unreturned loans with the loans-aware one |
| BookServices.Created | plugins/books-plugin/src/main/java/br/edu/ifba/inf008/plugins/books/application/services/BookService.java:61-67 | the saved book carries the request's fields under the new id, active |
| BookServices.CreatedIsFound | plugins/books-plugin/src/main/java/br/edu/ifba/inf008/plugins/books/application/services/BookService.java:49-70 | a created book keeps the table well keyed and is found by its id and its ISBN |
| BookServices.Deactivated | plugins/books-plugin/src/main/java/br/edu/ifba/inf008/plugins/books/application/services/BookService.java:87-89 | a deleted book is deactivated and its ISBN replaced by its tombstone; the other fields are kept |
| BookServices.DeletionFreesIsbn | plugins/books-plugin/src/main/java/br/edu/ifba/inf008/plugins/books/application/services/BookService.java:79-92 | after deletion the old ISBN is free, the book is still found by id and is no longer listed |
| BookServices.Edited | plugins/books-plugin/src/main/java/br/edu/ifba/inf008/plugins/books/application/services/BookService.java:120-123 | an edit replaces the edited fields and keeps the id, ISBN and deactivation |
| BookServices.BookService.constructor | plugins/books-plugin/src/main/java/br/edu/ifba/inf008/plugins/books/application/services/BookService.java:27-30 | building the service builds the availability manager with the default provider |
| BookServices.BookService.Create | plugins/books-plugin/src/main/java/br/edu/ifba/inf008/plugins/books/application/services/BookService.java:49-70 | an invalid request or a taken ISBN fails and changes nothing; otherwise the created book is saved under the next id |
| BookServices.BookService.Delete | plugins/books-plugin/src/main/java/br/edu/ifba/inf008/plugins/books/application/services/BookService.java:79-92 | a missing or deactivated book is not found; otherwise only that row is replaced by its deactivated form |
| BookServices.EditedKeepsKeys | plugins/books-plugin/src/main/java/br/edu/ifba/inf008/plugins/books/application/services/BookService.java:120-125 | an edit keeps the books table well keyed |
| BookServices.BookService.Edit | plugins/books-plugin/src/main/java/br/edu/ifba/inf008/plugins/books/application/services/BookService.java:104-173 | in order: an invalid request, a missing book, an ISBN held by another book; then a null copy count fails, fewer new copies than are locked fails with the shortfall, and otherwise the edit succeeds, replacing only that row by its edited form |
| BookServices.BookService.FindAll | plugins/books-plugin/src/main/java/br/edu/ifba/inf008/plugins/books/application/services/BookService.java:135-137 | a page of the active books |
| Users.NewUser | plugins/users-plugin/src/main/java/br/edu/ifba/inf008/plugins/users/domain/entities/User.java:37-45 | a new user is registered today and active |
| Users.ValidRequestBounds | plugins/users-plugin/src/main/java/br/edu/ifba/inf008/plugins/users/infrastructure/models/request/CreateUserRequest.java:7-17 | a valid create request has an address of the accepted form and a name, each non-empty and at most 100 UTF-16 units long |
| Users.FindById | core/src/main/java/br/edu/ifba/inf008/core/infrastructure/repositories/impl/HibernateRepository.java:38-44 | finds the user with the id, deactivated or not, or nothing |
| Users.FindByEmail | plugins/users-plugin/src/main/java/br/edu/ifba/inf008/plugins/users/infrastructure/repositories/UserRepository.java:53-55 | finds the user with the address, or empty exactly when none has it |
| Users.ExistsByEmail | plugins/users-plugin/src/main/java/br/edu/ifba/inf008/plugins/users/infrastructure/repositories/UserRepository.java:33-35 | holds exactly when some user holds the address |
| Users.LookupsFindTheRow | plugins/users-plugin/src/main/java/br/edu/ifba/inf008/plugins/users/domain/entities/User.java:24 | in a well-keyed table every user is what its id and its address find |
| Users.FindAllNonDeactivated | plugins/users-plugin/src/main/java/br/edu/ifba/inf008/plugins/users/infrastructure/repositories/UserRepository.java:43-45 | lists exactly the active users |
| Users.FindAllNonDeactivatedPage | plugins/users-plugin/src/main/java/br/edu/ifba/inf008/plugins/users/infrastructure/repositories/UserRepository.java:43-45 | the page is the page-th slice of at most size of the active users in table order, with their total |
| Users.NonDeactivatedPagesCoverAll | plugins/users-plugin/src/main/java/br/edu/ifba/inf008/plugins/users/infrastructure/repositories/UserRepository.java:43-45 | reading pages until the total is reached lists every active user once, in order |
| UserServices.EmailTakenIff | plugins/users-plugin/src/main/java/br/edu/ifba/inf008/plugins/users/application/services/UserService.java:127-134 | the address guard fires exactly when another user holds the address |
| UserServices.GuardsAgree | plugins/users-plugin/src/main/java/br/edu/ifba/inf008/plugins/users/infrastructure/services/UserService.java:87-97 | the two service variants' address guards agree on a well-keyed table |
| UserServices.Created | plugins/users-plugin/src/main/java/br/edu/ifba/inf008/plugins/users/application/services/UserService.java:54-59 | the saved user carries the request's name and address under the new id, registered today |
| UserServices.CreatedIsFound | plugins/users-plugin/src/main/java/br/edu/ifba/inf008/plugins/users/application/services/UserService.java:45-60 | a created user keeps the table well keyed and is found by id and address |
| UserServices.Deactivated | plugins/users-plugin/src/main/java/br/edu/ifba/inf008/plugins/users/application/services/UserService.java:69-80 | deleting a user sets only the deactivation |
| UserServices.DeletedEmailStaysTaken | plugins/users-plugin/src/main/java/br/edu/ifba/inf008/plugins/users/application/services/UserService.java:69-80 | a deleted user is still found by id and still holds the address, and is no longer listed |
| UserServices.Edited | plugins/users-plugin/src/main/java/br/edu/ifba/inf008/plugins/users/application/services/UserService.java:101-104 | an edit replaces the name and address and keeps the rest |
| UserServices.EditedIsFound | plugins/users-plugin/src/main/java/br/edu/ifba/inf008/plugins/users/application/services/UserService.java:91-107 | an edited user keeps the table well keyed and is found by id and by the new address |
| UserServices.UserService.constructor | plugins/users-plugin/src/main/java/br/edu/ifba/inf008/plugins/users/application/services/UserService.java:24-26 | the service works over the given table |
| UserServices.UserService.Create | plugins/users-plugin/src/main/java/br/edu/ifba/inf008/plugins/users/application/services/UserService.java:45-60 | an invalid request or a taken address fails and changes nothing; otherwise the created user is saved under the next id |
| UserServices.UserService.Delete | plugins/users-plugin/src/main/java/br/edu/ifba/inf008/plugins/users/application/services/UserService.java:69-80 | succeeds exactly for an active user, replacing only that row by its deactivated form |
| UserServices.UserService.Edit | plugins/users-plugin/src/main/java/br/edu/ifba/inf008/plugins/users/application/services/UserService.java:85-107 | an invalid request fails with ConstraintViolation, a missing user with UserNotFound, an address held by another user with EmailAlreadyExisting naming it; a success replaces only that row |
| UserServices.UserService.FindAll | plugins/users-plugin/src/main/java/br/edu/ifba/inf008/plugins/users/application/services/UserService.java:116-118 | a page of the active users |
| UserServices.LegacyUserService.constructor | plugins/users-plugin/src/main/java/br/edu/ifba/inf008/plugins/users/infrastructure/services/UserService.java:24-25 | the older service works over the given table |
| UserServices.LegacyUserService.Create | plugins/users-plugin/src/main/java/br/edu/ifba/inf008/plugins/users/infrastructure/services/UserService.java:34-51 | guarded by the repository's address check, otherwise as the newer service |
| UserServices.LegacyUserService.Delete | plugins/users-plugin/src/main/java/br/edu/ifba/inf008/plugins/users/infrastructure/services/UserService.java:59-70 | succeeds exactly for an active user, deactivating it |
| UserServices.LegacyUserService.Edit | plugins/users-plugin/src/main/java/br/edu/ifba/inf008/plugins/users/infrastructure/services/UserService.java:74-103 | an invalid request fails with ConstraintViolation, a missing user with UserNotFound, an address held by another user with EmailAlreadyExisting naming it; a success replaces only that row |
| UserServices.LegacyUserService.FindAll | plugins/users-plugin/src/main/java/br/edu/ifba/inf008/plugins/users/infrastructure/services/UserService.java:111-113 | a page of the active users |
| LoanServices.Lent | plugins/loans-plugin/src/main/java/br/edu/ifba/inf008/plugins/loans/application/services/LoanService.java:92-99 | a new loan links the user and the book, made today, not returned, under the new id |
| LoanServices.LentIsOut | plugins/loans-plugin/src/main/java/br/edu/ifba/inf008/plugins/loans/application/services/LoanService.java:84-99 | after lending, the loan is found by id, the user holds the book, and the book has one more loan out |
| LoanServices.Returned | plugins/loans-plugin/src/main/java/br/edu/ifba/inf008/plugins/loans/application/services/LoanService.java:118 | a return sets only the return date |
| LoanServices.ReturnedStaysFound | plugins/loans-plugin/src/main/java/br/edu/ifba/inf008/plugins/loans/application/services/LoanService.java:109-121 | a returned loan is still found by id, and its book has one loan fewer out |
| LoanServices.LoanService.constructor | plugins/loans-plugin/src/main/java/br/edu/ifba/inf008/plugins/loans/application/services/LoanService.java:41-49 | the service captures the availability manager instance as it stands |
| LoanServices.LoanService.Create | plugins/loans-plugin/src/main/java/br/edu/ifba/inf008/plugins/loans/application/services/LoanService.java:63-100 | the checks run in order, each with its own error: ConstraintViolation, UserNotFound, BookNotFound, UserAlreadyLoanedBook, then NullPointer without a manager instance and BookNotAvailableToLoan when no copy is available; it succeeds exactly when all pass, and then saves the new loan under the next id |
| LoanServices.LoanService.MarkAsReturned | plugins/loans-plugin/src/main/java/br/edu/ifba/inf008/plugins/loans/application/services/LoanService.java:109-121 | a missing loan is not found; a returned loan is refused with its return date; otherwise only its return date is set |
| LoanServices.LoanService.FindAll | plugins/loans-plugin/src/main/java/br/edu/ifba/inf008/plugins/loans/application/services/LoanService.java:130-132 | a page of all loans |

## Left out

- Rendering, layout, dialogs, styling, sounds and alerts of the JavaFX interface are left out. Only the state they read or change is modelled: buttons' style classes, the centre content, the scene's stylesheets, and the table's rows and buttons.
- Jar and file I/O, reflection, annotation reading and real class loading are left out. Jar entries, descriptors, resources and whether each plugin instantiates and initialises are inputs.
- Hibernate sessions, transactions, SQL and connection handling are left out. Each table is a sequence of rows in table order, and ids are handed out by a counter.
- The repositories are shared singletons across plugins. The model gives each service its own table and passes the other plugins' tables in as parameters.
- `save` merges an entity whose id is unknown. The model never saves under an unknown id.
- The repository's `DISTINCT` over book ids has no defined order. The model lists ids in order of first occurrence.
- Timestamps are reduced to dates, and the clock is a parameter.
- Pagination.TotalPages: models only a positive page size. The source's floating-point division with a size of 0 has no counterpart, and page numbers and sizes are non-negative integers.
- Integer overflow of `int` and `long` counters and ids is not modelled; integers are unbounded.
- CaseInsensitive.Fold: folds ASCII letters only. Java's full Unicode case folding is not modelled.
- Pagination.Capitalize: upper-cases ASCII letters only. Java's `toUpperCase` maps every Unicode letter and can lengthen the text (`ß` becomes `SS`); that is not modelled, so the result always has the input's length.
- PluginActivation.PluginController.LoadPlugins: only an `Exception` is caught per plugin. An `Error` (such as `NoClassDefFoundError` or `ExceptionInInitializerError`) thrown while loading, initialising or post-initialising a plugin escapes the loop and `init()`, so every later plugin is skipped. The activation outcomes cannot express this, and the model does not capture it.
- Users.RequestIsValid: the address format is an abstract predicate, not the `@Email` rules.
- BookServices.BookService.Edit: the edit request's constraints come from a class that is not part of this model. Their verdict is a parameter. An edit without an ISBN skips the uniqueness check and keeps the stored ISBN.
- Status strings and the report's text formatting are left out. Status is a datatype.
- The application UserService and the older infrastructure UserService are both modelled. Their guards are proved to agree on a well-keyed table.
- The stale `UsersManagement` class at the root plugin package only creates a demonstration tab and is not modelled.
- Loans.GetStatusAsWritten and Loans.GetStatus fail on a returned loan without a loan date, where the source would throw a null dereference.

## Findings

| source | as written | input that shows it | evidently intended | confidence | as-written member | corrected member |
|---|---|---|---|---|---|---|
| plugins/loans-plugin/src/main/java/br/edu/ifba/inf008/plugins/loans/domain/entities/Loan.java:107-109 | days overdue (and, on lines 118-119, days returned late) are computed as the difference of the two dates' days of the year | a loan made on day 350 of 2024, checked on day 3 of 2025, is reported overdue by -354 days | the number of calendar days past the due date, here 12 | not executed | Loans.GetStatusAsWritten, Loans.OverdueAcrossNewYear | Loans.GetStatus |
