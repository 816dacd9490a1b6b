# tcMenu Arduino code generator — a Dafny model

This project models the core of tcMenu's Arduino code generator. The generator
turns a menu tree, as built in the tcMenu designer, into C++ for an embedded
board. It also checks plugin property values.

The model covers these parts of `ArduinoGenerator`:

- **Naming.** `makeNameFromVariable`, `capitaliseFirst`, `makeNameToVar` and
  `makeRtFunctionName` turn item display names into C identifiers. With
  recursive naming, an item's identifier also carries its parents' names.
- **Linearisation.** `renderMenu`, `generateMenusInOrder` and
  `addNameAndKeyToStructure` walk the tree in pre-order. Each item gets a struct
  group built from its name, its next sibling's name and its first child's name.
  The groups are reversed, and the application identity record goes last.
- **Callbacks.** `callBackFunctions` collects one callback requirement per item
  that names a function or needs runtime structure. `generateHeaders` sorts the
  requirements: null names first, then by `String.compareTo`. It writes one line
  per non-empty header.
- **Callback source placement.** The struct loop of `generateSource` writes each
  callback's source just before the first struct of its item.
- **State flags.** `generateReadOnlyLocal` builds the set-up calls in four blocks:
  read-only, local-only, secured sub-menus, invisible items.
- **Paths.** `toSourceFile` and `getFirstMenuVariable`.
- **Plugin removal.** The removal loop of `dealWithRequiredPlugins` deletes
  previously provisioned plugin files that are no longer required.
- **`startConversion`.** It stores the tree and the previous plugin files in the
  generator's fields. It names the three output files after the directory and
  builds the menu structure.

`StringPropertyValidationRules` is modelled in full: `isValueValid`,
`hasChoices`, `choices` and `toString`.

The generator is a class (`Generator.ArduinoGenerator`). Its fields are the menu
tree and the previous plugin files, which `startConversion` sets. Its loops are
methods proved against specification functions:

- `makeNameToVar`'s climb to ROOT;
- `renderMenu`'s sibling loop;
- each `generateReadOnlyLocal` pass;
- the plugin removal loop;
- the header loop and the struct loop.

Everything else is functions and lemmas. The menu tree is a value
(`MenuTree.Menu`). The generator reads it but never changes it.

Modules, one per file:

| module | file | contents |
|---|---|---|
| `Wrappers` | wrappers.dfy | Option and Result, standing in for `null` and for exceptions |
| `CharClasses` | char_classes.dfy | `\p{P}`, `\p{Z}`, `\p{L}`, `\p{N}`, `\s` and `Character.toUpperCase` |
| `Sequences` | sequences.dfy | reverse, join, flatten |
| `Naming` | naming.dfy | `String.split` with the separator class, `capitaliseFirst`, `makeNameFromVariable` |
| `MenuTree` | menu_tree.dfy | items, the ROOT sentinel, `findParent`, `getAllMenuItems`, `getAllSubMenus` |
| `VariableNames` | variable_names.dfy | `makeNameToVar` and `makeRtFunctionName`, stated over an item's path |
| `Structures` | structures.dfy | the links each item's struct generator receives, and their order |
| `Callbacks` | callbacks.dfy | callback requirements, `Collectors.toMap`, the header comparator and the sort |
| `StateFlags` | state_flags.dfy | the state-flag set-up calls |
| `Emission` | emission.dfy | the header loop, and the struct loop with callback source placement |
| `Paths` | paths.dfy | Unix `java.nio.file.Path`: `get`, `getFileName`, `resolve`, `toString` |
| `Plugins` | plugins.dfy | the plugin removal loop over a modelled file system |
| `Generator` | generator.dfy | the `ArduinoGenerator` class |
| `Validation` | validation.dfy | `StringPropertyValidationRules` |

Source cells in the table below give paths relative to the repository root.

## Model

| member | source | states |
|---|---|---|
| CharClasses.ToUpperCase | tcMenuGenerator/src/main/java/com/thecoderscorner/menu/editorui/generator/arduino/ArduinoGenerator.java:528 | A small Latin letter moves 32 code points down to its capital, 'µ' becomes Greek capital mu and 'ÿ' becomes capital Y with diaeresis. Letters stay letters, and every other character of the modelled blocks, 'ß' included, is left as it is. |
| Naming.CapitaliseFirst | tcMenuGenerator/src/main/java/com/thecoderscorner/menu/editorui/generator/arduino/ArduinoGenerator.java:526-529 | An empty string stays empty. Otherwise only the first character is upper-cased and the length is kept. |
| Naming.Split | tcMenuGenerator/src/main/java/com/thecoderscorner/menu/editorui/generator/arduino/ArduinoGenerator.java:522 | No part produced by `split` on the separator class contains a separator. |
| Naming.DropTrailingEmptyKeepsText | tcMenuGenerator/src/main/java/com/thecoderscorner/menu/editorui/generator/arduino/ArduinoGenerator.java:522-523 | Dropping the trailing empty parts, as `split` with limit 0 does, does not change the joined, capitalised name. |
| Naming.NameFromVariable | tcMenuGenerator/src/main/java/com/thecoderscorner/menu/editorui/generator/arduino/ArduinoGenerator.java:521-524 | Computes `makeNameFromVariable` in one scan: up to the first run of separators the text is kept with its first character upper-cased, the run is dropped, and the rest is handled the same way. What this means is stated by the lemmas below. |
| Naming.NameFromVariableIsSplitJoin | tcMenuGenerator/src/main/java/com/thecoderscorner/menu/editorui/generator/arduino/ArduinoGenerator.java:521-524 | `makeNameFromVariable` is `split` on the separator class, then `capitaliseFirst` on every part, then joining with nothing. |
| Naming.NameFromVariableIsWordCase | tcMenuGenerator/src/main/java/com/thecoderscorner/menu/editorui/generator/arduino/ArduinoGenerator.java:521-529 | It agrees with a one-pass reading: separators are dropped, and a kept character is upper-cased exactly when it starts a word. |
| Naming.NameFromVariableHasNoSeparator | tcMenuGenerator/src/main/java/com/thecoderscorner/menu/editorui/generator/arduino/ArduinoGenerator.java:521-524 | No punctuation, space separator, control whitespace or '^' survives in a name. |
| Naming.NameFromVariableKeepsCharacters | tcMenuGenerator/src/main/java/com/thecoderscorner/menu/editorui/generator/arduino/ArduinoGenerator.java:521-529 | Every non-separator character is kept, in order. Each one either stays as it is or is upper-cased. |
| Naming.NameFromVariableOfWord | tcMenuGenerator/src/main/java/com/thecoderscorner/menu/editorui/generator/arduino/ArduinoGenerator.java:521-529 | A name without separators only gets its first character upper-cased. |
| Naming.DistinctNamesCanCollide | tcMenuGenerator/src/main/java/com/thecoderscorner/menu/editorui/generator/arduino/ArduinoGenerator.java:521-524 | A name, and the same name behind a leading separator, give the same identifier. So the naming is not injective. |
| MenuTree.FindParent | tcMenuGenerator/src/main/java/com/thecoderscorner/menu/editorui/generator/arduino/ArduinoGenerator.java:498 | Computes `findParent` by searching the tree for the item's identity. `ParentFromPath` states what it returns. |
| MenuTree.ParentFromPath | tcMenuGenerator/src/main/java/com/thecoderscorner/menu/editorui/generator/arduino/ArduinoGenerator.java:498 | `findParent` gives the item just above the node on its path, ROOT for a top-level item, and null for an item not in the tree. |
| MenuTree.PathPrefix | tcMenuGenerator/src/main/java/com/thecoderscorner/menu/editorui/generator/arduino/ArduinoGenerator.java:505-509 | Every prefix of an item's path is the path of that prefix's last item. |
| MenuTree.PathAvoidsRoot | tcMenuGenerator/src/main/java/com/thecoderscorner/menu/editorui/generator/arduino/ArduinoGenerator.java:506 | In a well-formed tree no path passes through ROOT's identity. |
| MenuTree.ChildrenOfSubMenusAreAllItems | tcMenuGenerator/src/main/java/com/thecoderscorner/menu/editorui/generator/arduino/ArduinoGenerator.java:476-477 | The child lists of all sub-menus hold every item below ROOT exactly once: they are a permutation of `getAllMenuItems`. |
| VariableNames.NameToVar | tcMenuGenerator/src/main/java/com/thecoderscorner/menu/editorui/generator/arduino/ArduinoGenerator.java:493-515 | Computes the variable name of an item from its path below ROOT. It is "NULL" for no item. It is the item's own fragment when naming is flat or the item sits directly under ROOT. Otherwise it is the path's fragments joined, top-down. `MakeNameToVar` is proved equal to it. |
| VariableNames.RtFunctionName | tcMenuGenerator/src/main/java/com/thecoderscorner/menu/editorui/generator/arduino/ArduinoGenerator.java:517-519 | The runtime function name is "fn", then the item's variable name, then "RtCall". |
| VariableNames.NameToVarHasNoSeparator | tcMenuGenerator/src/main/java/com/thecoderscorner/menu/editorui/generator/arduino/ArduinoGenerator.java:493-515 | In either naming mode, no variable name contains a separator character. |
| VariableNames.NameToVarOfPath | tcMenuGenerator/src/main/java/com/thecoderscorner/menu/editorui/generator/arduino/ArduinoGenerator.java:503-513 | With recursive naming, an item's name is the fragments of its whole path, top-down, ROOT excluded. |
| VariableNames.NameToVarAlongPath | tcMenuGenerator/src/main/java/com/thecoderscorner/menu/editorui/generator/arduino/ArduinoGenerator.java:503-513 | With recursive naming, each item on a path is named by the path down to it. So a sub-menu's name is a prefix of its descendants' names. |
| VariableNames.NameToVarTopLevel | tcMenuGenerator/src/main/java/com/thecoderscorner/menu/editorui/generator/arduino/ArduinoGenerator.java:497-501 | A child of ROOT is named by its own fragment in either naming mode. |
| Generator.ArduinoGenerator.constructor | tcMenuGenerator/src/main/java/com/thecoderscorner/menu/editorui/generator/arduino/ArduinoGenerator.java:68-80 | A new generator has no previous plugin files and an empty tree. It keeps the naming option it was given. |
| Generator.ArduinoGenerator.MakeNameToVar | tcMenuGenerator/src/main/java/com/thecoderscorner/menu/editorui/generator/arduino/ArduinoGenerator.java:493-515 | The name built by the method (shortcut, or climb, reverse and join) equals the path-based definition `NameToVar`. |
| Generator.ArduinoGenerator.CollectFragments | tcMenuGenerator/src/main/java/com/thecoderscorner/menu/editorui/generator/arduino/ArduinoGenerator.java:504-509 | The climb collects one fragment per item from the item up to ROOT, the item's own first, and stops at ROOT. |
| Generator.ClimbChainOf | tcMenuGenerator/src/main/java/com/thecoderscorner/menu/editorui/generator/arduino/ArduinoGenerator.java:505-508 | Starting from an item, repeated `findParent` visits its path bottom-up and reaches ROOT after the top-level item. |
| Generator.ClimbFragmentsReversed | tcMenuGenerator/src/main/java/com/thecoderscorner/menu/editorui/generator/arduino/ArduinoGenerator.java:511-513 | Reversing the fragments collected bottom-up gives the fragments of the path top-down. |
| Generator.NameToVarCases | tcMenuGenerator/src/main/java/com/thecoderscorner/menu/editorui/generator/arduino/ArduinoGenerator.java:497-513 | The shortcut applies exactly when naming is flat or the parent is null or ROOT. Otherwise the item is at depth two or more and its path gives its name. |
| Generator.ArduinoGenerator.MakeRtFunctionName | tcMenuGenerator/src/main/java/com/thecoderscorner/menu/editorui/generator/arduino/ArduinoGenerator.java:517-519 | The method returns `RtFunctionName` of the item. |
| Generator.ArduinoGenerator.GetFirstMenuVariable | tcMenuGenerator/src/main/java/com/thecoderscorner/menu/editorui/generator/arduino/ArduinoGenerator.java:434-438 | An empty menu gives "". Otherwise the result is "menu" followed by the first top-level item's own fragment, in either naming mode. |
| Generator.ArduinoGenerator.MakeLink | tcMenuGenerator/src/main/java/com/thecoderscorner/menu/editorui/generator/arduino/ArduinoGenerator.java:454-469 | A sibling's generator arguments are its name and the next sibling's name ("NULL" after the last). A sub-menu also gets its first child's name ("NULL" when it is empty). |
| Generator.ArduinoGenerator.RenderMenu | tcMenuGenerator/src/main/java/com/thecoderscorner/menu/editorui/generator/arduino/ArduinoGenerator.java:449-473 | The groups built are those of the pre-order link list `LinksFrom`. Each sub-menu's group is followed by its children's groups, then its next sibling's. |
| Generator.ArduinoGenerator.GenerateMenusInOrder | tcMenuGenerator/src/main/java/com/thecoderscorner/menu/editorui/generator/arduino/ArduinoGenerator.java:440-447 | The structs are renderMenu's groups from ROOT's children, reversed group by group, then flattened (`MenusInOrder`). |
| Generator.ArduinoGenerator.FlagPass | tcMenuGenerator/src/main/java/com/thecoderscorner/menu/editorui/generator/arduino/ArduinoGenerator.java:141-147 | One pass produces one call per item that has the flag, in item order: the flag's function and argument, on "menu" plus the item's name. |
| Generator.ArduinoGenerator.GenerateReadOnlyLocal | tcMenuGenerator/src/main/java/com/thecoderscorner/menu/editorui/generator/arduino/ArduinoGenerator.java:138-180 | The calls are the read-only, local-only, secured-sub-menu and invisible blocks over all items, in that order. |
| Generator.ArduinoGenerator.RemoveUnusedPlugins | tcMenuGenerator/src/main/java/com/thecoderscorner/menu/editorui/generator/arduino/ArduinoGenerator.java:370-383 | The loop's deleted files, remaining files and early stop are those of the specification `RemoveFrom` over the stored previous files. |
| Generator.ArduinoGenerator.StartConversion | tcMenuGenerator/src/main/java/com/thecoderscorner/menu/editorui/generator/arduino/ArduinoGenerator.java:82-136 | The fields take the new tree and previous files. It fails exactly for a directory with no file name. Otherwise it returns true, with the .ino, _menu.cpp and _menu.h files and the menu structs followed by the identity record. |
| Structures.LinkAt | tcMenuGenerator/src/main/java/com/thecoderscorner/menu/editorui/generator/arduino/ArduinoGenerator.java:454-469 | Computes the names one item's struct generator receives: its own name, then the next sibling's name or "NULL", and for a sub-menu the first child's name or "NULL". |
| Structures.LinksFrom | tcMenuGenerator/src/main/java/com/thecoderscorner/menu/editorui/generator/arduino/ArduinoGenerator.java:449-473 | Computes the links `renderMenu` produces from one position of a sibling list onwards: each item's link, followed by the links of its children when it is a sub-menu. |
| Structures.MenusInOrder | tcMenuGenerator/src/main/java/com/thecoderscorner/menu/editorui/generator/arduino/ArduinoGenerator.java:440-447 | Computes `generateMenusInOrder`: the struct groups of the links from ROOT's children, reversed and flattened. |
| Structures.AddNameAndKey | tcMenuGenerator/src/main/java/com/thecoderscorner/menu/editorui/generator/arduino/ArduinoGenerator.java:182-190 | The menu structs are kept as they are. One record follows them: applicationInfo of type ConnectorLocalInfo, quoting name then uuid, in program memory and exported. |
| Structures.LinksFollowItems | tcMenuGenerator/src/main/java/com/thecoderscorner/menu/editorui/generator/arduino/ArduinoGenerator.java:449-473 | renderMenu makes exactly one link per node, in pre-order: a sub-menu, then all its descendants, then its next sibling. |
| Structures.LinksCoverAllItems | tcMenuGenerator/src/main/java/com/thecoderscorner/menu/editorui/generator/arduino/ArduinoGenerator.java:440-442 | The links from ROOT's children list exactly the items below ROOT, in pre-order. |
| Structures.FirstLinkRefersAhead | tcMenuGenerator/src/main/java/com/thecoderscorner/menu/editorui/generator/arduino/ArduinoGenerator.java:455-459 | A sibling's next name and first-child name are "NULL" or the names of links that come after its own. |
| Structures.LinksReferAhead | tcMenuGenerator/src/main/java/com/thecoderscorner/menu/editorui/generator/arduino/ArduinoGenerator.java:449-473 | In renderMenu's order, every non-"NULL" name a link refers to belongs to a later link. |
| Structures.ReverseRefersBack | tcMenuGenerator/src/main/java/com/thecoderscorner/menu/editorui/generator/arduino/ArduinoGenerator.java:443 | After the reversal, every reference points to an earlier link. |
| Structures.MenusInOrderRefersBack | tcMenuGenerator/src/main/java/com/thecoderscorner/menu/editorui/generator/arduino/ArduinoGenerator.java:440-447 | The emitted structs are the groups of the reversed links. Every non-"NULL" name a group refers to belongs to a group emitted before it. |
| Structures.ReversedGroupsSplit | tcMenuGenerator/src/main/java/com/thecoderscorner/menu/editorui/generator/arduino/ArduinoGenerator.java:443-446 | The reversal works on whole groups: later groups come first, and each keeps its internal order. |
| StateFlags.StateCalls | tcMenuGenerator/src/main/java/com/thecoderscorner/menu/editorui/generator/arduino/ArduinoGenerator.java:138-175 | Computes the calls `generateReadOnlyLocal` returns: the read-only block, then the local-only, secured and invisible blocks. |
| StateFlags.Flagged | tcMenuGenerator/src/main/java/com/thecoderscorner/menu/editorui/generator/arduino/ArduinoGenerator.java:141 | Every item a pass keeps has that pass's flag. |
| StateFlags.FlaggedCount | tcMenuGenerator/src/main/java/com/thecoderscorner/menu/editorui/generator/arduino/ArduinoGenerator.java:141-172 | A pass keeps an item as often as the list holds it when the item has the flag, and never otherwise. |
| StateFlags.FlagCalls | tcMenuGenerator/src/main/java/com/thecoderscorner/menu/editorui/generator/arduino/ArduinoGenerator.java:141-146 | A pass has one call per flagged item, each for that item. |
| StateFlags.FlagCallShape | tcMenuGenerator/src/main/java/com/thecoderscorner/menu/editorui/generator/arduino/ArduinoGenerator.java:141-172 | Each call names setReadOnly/setLocalOnly/setSecured with "true", or setVisible with "false", on "menu" plus the item's name. |
| StateFlags.FlagCallsSnoc | tcMenuGenerator/src/main/java/com/thecoderscorner/menu/editorui/generator/arduino/ArduinoGenerator.java:141-146 | Appending an item appends its call exactly when the item has the flag. |
| StateFlags.StateCallsInBlockOrder | tcMenuGenerator/src/main/java/com/thecoderscorner/menu/editorui/generator/arduino/ArduinoGenerator.java:138-175 | A call of an earlier block never follows a call of a later block. |
| StateFlags.ReadOnlyLocalOnlyItem | tcMenuGenerator/src/main/java/com/thecoderscorner/menu/editorui/generator/arduino/ArduinoGenerator.java:138-175 | A visible, read-only and local-only item that is not a secured sub-menu gets exactly setReadOnly(true), then setLocalOnly(true). |
| Callbacks.Requirements | tcMenuGenerator/src/main/java/com/thecoderscorner/menu/editorui/generator/arduino/ArduinoGenerator.java:478-479 | Every requirement is for an item that names a function or needs runtime structure, and carries that item's function name. |
| Callbacks.RequirementsMembers | tcMenuGenerator/src/main/java/com/thecoderscorner/menu/editorui/generator/arduino/ArduinoGenerator.java:477-479 | The requirements are exactly those of the items that need one. |
| Callbacks.RequirementsOrder | tcMenuGenerator/src/main/java/com/thecoderscorner/menu/editorui/generator/arduino/ArduinoGenerator.java:477-479 | The filter keeps the items' order. |
| Callbacks.RequirementsDistinct | tcMenuGenerator/src/main/java/com/thecoderscorner/menu/editorui/generator/arduino/ArduinoGenerator.java:477-480 | Items with unique identities give requirements with unique keys. |
| Callbacks.ToMap | tcMenuGenerator/src/main/java/com/thecoderscorner/menu/editorui/generator/arduino/ArduinoGenerator.java:480 | Computes `Collectors.toMap` keyed by each requirement's item. It is None, standing for the exception, when a key repeats. |
| Callbacks.CallBackFunctions | tcMenuGenerator/src/main/java/com/thecoderscorner/menu/editorui/generator/arduino/ArduinoGenerator.java:475-481 | Computes `callBackFunctions`: the requirements of the children of every sub-menu, collected by `ToMap`. |
| Callbacks.ToMapDefined | tcMenuGenerator/src/main/java/com/thecoderscorner/menu/editorui/generator/arduino/ArduinoGenerator.java:480 | `toMap` succeeds exactly when no two requirements share an item. Otherwise it throws. |
| Callbacks.ToMapLookup | tcMenuGenerator/src/main/java/com/thecoderscorner/menu/editorui/generator/arduino/ArduinoGenerator.java:480 | After `toMap`, every requirement is found under its item. |
| Callbacks.ToMapKeys | tcMenuGenerator/src/main/java/com/thecoderscorner/menu/editorui/generator/arduino/ArduinoGenerator.java:480 | After `toMap`, every key is some requirement's item. |
| Callbacks.ToMapOfItems | tcMenuGenerator/src/main/java/com/thecoderscorner/menu/editorui/generator/arduino/ArduinoGenerator.java:478-480 | Over items with unique identities, the map holds an item exactly when it needs a callback, with that item's requirement. |
| Callbacks.CallBackFunctionsOfTree | tcMenuGenerator/src/main/java/com/thecoderscorner/menu/editorui/generator/arduino/ArduinoGenerator.java:475-481 | On a well-formed tree `callBackFunctions` never throws. It maps exactly the items below ROOT that need a callback to their requirement, and ROOT is never a key. |
| Callbacks.CallBackFunctionsKeyedByItem | tcMenuGenerator/src/main/java/com/thecoderscorner/menu/editorui/generator/arduino/ArduinoGenerator.java:475-481 | On a well-formed tree, every requirement of the map is stored under its own item. |
| Callbacks.CallBackFunctionsValues | tcMenuGenerator/src/main/java/com/thecoderscorner/menu/editorui/generator/arduino/ArduinoGenerator.java:475-481 | On a well-formed tree, the map's values, which `generateHeaders` lists and sorts, are exactly the requirements of the items below ROOT that need one. |
| Callbacks.CompareTo | tcMenuGenerator/src/main/java/com/thecoderscorner/menu/editorui/generator/arduino/ArduinoGenerator.java:321 | Computes `String.compareTo`: the difference of the first differing characters, or else the difference of the lengths. |
| Callbacks.CompareToZero | tcMenuGenerator/src/main/java/com/thecoderscorner/menu/editorui/generator/arduino/ArduinoGenerator.java:321 | `compareTo` is zero exactly for equal strings. |
| Callbacks.CompareToAntisymmetric | tcMenuGenerator/src/main/java/com/thecoderscorner/menu/editorui/generator/arduino/ArduinoGenerator.java:321 | `compareTo(a, b)` is `-compareTo(b, a)`. |
| Callbacks.CompareToTransitive | tcMenuGenerator/src/main/java/com/thecoderscorner/menu/editorui/generator/arduino/ArduinoGenerator.java:321 | `compareTo` is transitive. |
| Callbacks.CompareToIsLexical | tcMenuGenerator/src/main/java/com/thecoderscorner/menu/editorui/generator/arduino/ArduinoGenerator.java:321 | `compareTo(a, b) <= 0` exactly when `a` is a prefix of `b`, or is smaller at the first difference. |
| Callbacks.CompareCallbacks | tcMenuGenerator/src/main/java/com/thecoderscorner/menu/editorui/generator/arduino/ArduinoGenerator.java:317-322 | Computes the header comparator: two null names are equal, a null name comes first, and two names compare with `CompareTo`. |
| Callbacks.CompareCallbacksOrder | tcMenuGenerator/src/main/java/com/thecoderscorner/menu/editorui/generator/arduino/ArduinoGenerator.java:317-322 | The comparator is a total preorder. A null name precedes every non-null name, and non-null names compare lexically. |
| Callbacks.Insert | tcMenuGenerator/src/main/java/com/thecoderscorner/menu/editorui/generator/arduino/ArduinoGenerator.java:317 | Inserting adds exactly the one requirement. |
| Callbacks.InsertSorted | tcMenuGenerator/src/main/java/com/thecoderscorner/menu/editorui/generator/arduino/ArduinoGenerator.java:317-322 | Inserting into a sorted list keeps it sorted. |
| Callbacks.SortCallbacks | tcMenuGenerator/src/main/java/com/thecoderscorner/menu/editorui/generator/arduino/ArduinoGenerator.java:316-322 | Sorting returns a permutation of the requirements. |
| Callbacks.SortCallbacksSorted | tcMenuGenerator/src/main/java/com/thecoderscorner/menu/editorui/generator/arduino/ArduinoGenerator.java:316-322 | The sorted list is in comparator order and is a permutation of the input. |
| Callbacks.NullNamesFirst | tcMenuGenerator/src/main/java/com/thecoderscorner/menu/editorui/generator/arduino/ArduinoGenerator.java:318-320 | After sorting, every requirement with a null name comes before every named one. |
| Callbacks.DistinctItemsOfPermutation | tcMenuGenerator/src/main/java/com/thecoderscorner/menu/editorui/generator/arduino/ArduinoGenerator.java:316-322 | Reordering a list of requirements whose items are distinct, as the sort does, keeps the items distinct. |
| Emission.ValuesOf | tcMenuGenerator/src/main/java/com/thecoderscorner/menu/editorui/generator/arduino/ArduinoGenerator.java:316 | Listing a map's values gives one entry per key, and exactly the map's values. For a map keyed by each requirement's item, no item is listed twice. |
| Emission.GenerateCallbackHeaders | tcMenuGenerator/src/main/java/com/thecoderscorner/menu/editorui/generator/arduino/ArduinoGenerator.java:316-329 | The callback part of `generateHeaders`. The map's values are sorted into comparator order, one entry per key and no item twice when the map is keyed by item. The text written is `HeaderLines` of that sorted list. |
| Emission.HeaderLines | tcMenuGenerator/src/main/java/com/thecoderscorner/menu/editorui/generator/arduino/ArduinoGenerator.java:324-329 | Computes the header lines written for a list of requirements: each non-empty header plus a line break, in list order. |
| Emission.WriteCallbackHeaders | tcMenuGenerator/src/main/java/com/thecoderscorner/menu/editorui/generator/arduino/ArduinoGenerator.java:324-329 | The loop writes, in order, each non-empty header followed by a line break (`HeaderLines`). |
| Emission.HeaderLinesAreNonEmptyHeaders | tcMenuGenerator/src/main/java/com/thecoderscorner/menu/editorui/generator/arduino/ArduinoGenerator.java:324-329 | A line is written exactly when it is some requirement's non-empty header plus a line break. |
| Emission.HeaderLinesCount | tcMenuGenerator/src/main/java/com/thecoderscorner/menu/editorui/generator/arduino/ArduinoGenerator.java:324-329 | There are exactly as many header lines as requirements with a non-empty header. |
| Emission.Declarations | tcMenuGenerator/src/main/java/com/thecoderscorner/menu/editorui/generator/arduino/ArduinoGenerator.java:232-243 | Computes, for each struct, its item's callback source when the struct is the item's first and the item has a callback, followed by the struct's own source and a line break. |
| Emission.MenuItemDeclarations | tcMenuGenerator/src/main/java/com/thecoderscorner/menu/editorui/generator/arduino/ArduinoGenerator.java:228-244 | The loop writes, for each struct in order, its item's callback source lines first if they are not yet written, then the struct's source. |
| Emission.LocalCallbacksStep | tcMenuGenerator/src/main/java/com/thecoderscorner/menu/editorui/generator/arduino/ArduinoGenerator.java:228-233 | The local copy still holds a struct's item exactly when this is the first struct for that item, and the copy is the map minus the items already met. |
| Emission.CallbackWrittenOnce | tcMenuGenerator/src/main/java/com/thecoderscorner/menu/editorui/generator/arduino/ArduinoGenerator.java:228-243 | A callback's source is written once, before the first struct of its item, when there is one. It is never written twice. |
| Paths.FileName | tcMenuGenerator/src/main/java/com/thecoderscorner/menu/editorui/generator/arduino/ArduinoGenerator.java:484 | `getFileName` is null exactly for the root directory. Otherwise it is the last name. |
| Paths.ToSourceFile | tcMenuGenerator/src/main/java/com/thecoderscorner/menu/editorui/generator/arduino/ArduinoGenerator.java:483-486 | `toSourceFile` fails (null dereference) exactly for the root directory. |
| Paths.ToSourceFileInDirectory | tcMenuGenerator/src/main/java/com/thecoderscorner/menu/editorui/generator/arduino/ArduinoGenerator.java:483-486 | For a named directory, the file sits inside the directory, named after the directory's last name plus the extension. |
| Paths.ParsePathString | tcMenuGenerator/src/main/java/com/thecoderscorner/menu/editorui/generator/arduino/ArduinoGenerator.java:485 | Parsing a path's string gives the path back. |
| Plugins.RemoveFrom | tcMenuGenerator/src/main/java/com/thecoderscorner/menu/editorui/generator/arduino/ArduinoGenerator.java:370-383 | Computes the removal loop over the previous plugin files. A required entry is skipped. An unrequired entry with no base name stops the loop. Otherwise the base name is resolved in the directory and the file is deleted when it exists and its deletion does not fail. The result is the files deleted, the files left and whether the loop completed. |
| Plugins.BaseNameOfName | tcMenuGenerator/src/main/java/com/thecoderscorner/menu/editorui/generator/arduino/ArduinoGenerator.java:372 | A plain file name is its own base name. |
| Plugins.RemovalCompletes | tcMenuGenerator/src/main/java/com/thecoderscorner/menu/editorui/generator/arduino/ArduinoGenerator.java:370-383 | The loop runs to the end exactly when every unrequired entry has a base name. The root entry dereferences null and stops it. |
| Plugins.RemovalAccounts | tcMenuGenerator/src/main/java/com/thecoderscorner/menu/editorui/generator/arduino/ArduinoGenerator.java:370-383 | Only existing, deletable files are deleted, each at most once. The files left are the existing files that were not deleted. |
| Plugins.RemovalRemaining | tcMenuGenerator/src/main/java/com/thecoderscorner/menu/editorui/generator/arduino/ArduinoGenerator.java:370-383 | A completed loop leaves the existing files minus the deletable targets of the unrequired entries. |
| Plugins.RemovalExample | tcMenuGenerator/src/main/java/com/thecoderscorner/menu/editorui/generator/arduino/ArduinoGenerator.java:365-383 | With a.h, b.h and c.h provisioned before, and b.h and d.h required now, a.h then c.h are deleted and b.h stays. |
| Sequences.Reverse | tcMenuGenerator/src/main/java/com/thecoderscorner/menu/editorui/generator/arduino/ArduinoGenerator.java:512 | `Collections.reverse` puts element k at position n-1-k. |
| Validation.IsValueValid | tcMenuCodePluginApi/src/main/java/com/thecoderscorner/menu/pluginapi/validation/StringPropertyValidationRules.java:26-34 | Computes `isValueValid`: false when the value is longer than the maximum, otherwise whether the whole value matches the variable or the string pattern. |
| Validation.MatchesStarIff | tcMenuCodePluginApi/src/main/java/com/thecoderscorner/menu/pluginapi/validation/StringPropertyValidationRules.java:14-15 | `^[class]*$` matches exactly the strings whose characters are all in the class. |
| Validation.TooLongIsInvalid | tcMenuCodePluginApi/src/main/java/com/thecoderscorner/menu/pluginapi/validation/StringPropertyValidationRules.java:27 | A value longer than the maximum is invalid, whatever its characters. |
| Validation.VariableModeValid | tcMenuCodePluginApi/src/main/java/com/thecoderscorner/menu/pluginapi/validation/StringPropertyValidationRules.java:26-34 | In variable mode, a value within the bound is valid exactly when it has only letters, digits and '_'. |
| Validation.StringModeValid | tcMenuCodePluginApi/src/main/java/com/thecoderscorner/menu/pluginapi/validation/StringPropertyValidationRules.java:26-34 | In string mode, a value within the bound is valid exactly when it has only letters, digits, whitespace and - _ * % ( ). |
| Validation.EmptyValid | tcMenuCodePluginApi/src/main/java/com/thecoderscorner/menu/pluginapi/validation/StringPropertyValidationRules.java:26-34 | The empty value is valid exactly when the maximum is not negative. |
| Validation.VariableValidIsStringValid | tcMenuCodePluginApi/src/main/java/com/thecoderscorner/menu/pluginapi/validation/StringPropertyValidationRules.java:14-15 | A value valid as a variable name is also valid as a string under the same maximum. |
| Validation.HasChoices | tcMenuCodePluginApi/src/main/java/com/thecoderscorner/menu/pluginapi/validation/StringPropertyValidationRules.java:37-39 | These rules never offer choices. |
| Validation.Choices | tcMenuCodePluginApi/src/main/java/com/thecoderscorner/menu/pluginapi/validation/StringPropertyValidationRules.java:42-44 | The choice list is always empty. |
| Validation.NatToString | tcMenuCodePluginApi/src/main/java/com/thecoderscorner/menu/pluginapi/validation/StringPropertyValidationRules.java:48 | `Integer.toString` of a non-negative value is a non-empty string of decimal digits. |
| Validation.IntToStringRoundTrip | tcMenuCodePluginApi/src/main/java/com/thecoderscorner/menu/pluginapi/validation/StringPropertyValidationRules.java:48 | Parsing the printed maximum gives the maximum back. |
| Validation.ToStringInjective | tcMenuCodePluginApi/src/main/java/com/thecoderscorner/menu/pluginapi/validation/StringPropertyValidationRules.java:48 | The intended text determines both the mode and the maximum. |
| Validation.ToStringAsWritten | tcMenuCodePluginApi/src/main/java/com/thecoderscorner/menu/pluginapi/validation/StringPropertyValidationRules.java:48 | Computes `toString` as written, where the conditional binds last. |
| Validation.ToString | tcMenuCodePluginApi/src/main/java/com/thecoderscorner/menu/pluginapi/validation/StringPropertyValidationRules.java:48 | Computes `toString` as evidently intended: the mode's word, then the maximum length, in both modes. |
| Validation.ToStringAsWrittenDropsLength | tcMenuCodePluginApi/src/main/java/com/thecoderscorner/menu/pluginapi/validation/StringPropertyValidationRules.java:48 | As written, variable-mode rules with maxima 10 and 20 both print just "Variable ". The intended text tells them apart. |
| Validation.ToStringAsWrittenInStringMode | tcMenuCodePluginApi/src/main/java/com/thecoderscorner/menu/pluginapi/validation/StringPropertyValidationRules.java:48 | In string mode, the text as written is the intended text. |

## Behaviour of the code worth knowing

- **Position of the identity record.** `generateMenusInOrder` reverses the
  groups, and only then does `addNameAndKeyToStructure` append the identity
  record (lines 109-110). So the record is emitted last, and that is what
  `Structures.AddNameAndKey` states.
- **Which previous plugin files are kept.** Line 371 tests whether the whole
  previous entry is in the set of required file names. Only deletion uses the
  base name (line 372). `Plugins.RemoveFrom` does both.
- **What counts as a container.** `renderMenu` asks `hasChildren()` (line 454).
  The model takes that to mean "is a sub-menu", so an empty sub-menu is still a
  container and gets a "NULL" first child (line 459).

## Left out

- File I/O: the writers, the sketch adjuster, the library installer, logging, the
  clock and the date formatter. The model produces the text, or the structure
  that is written, instead of writing it.
- `generateHeaders` and `generateSource` outside the two loops modelled: the
  comment headers, includes, defines, exports and variable mapping. They only
  call code that is not part of this model (`CodeVariableExtractor`,
  `EmbeddedCodeCreator`).
- The adding half of `dealWithRequiredPlugins` (`generatePluginsForCreator`). It
  reads plugin jars and library files and applies regular-expression
  replacements (`replaceAll`), none of which is modelled.
- `checkIfUpToDateWarningNeeded` and `checkIfLegacyFilesAreOnPath`: they only log.
- `setLoggerFunction` and the UI classes (`GenerateCodeDialog`,
  `CodeGeneratorController`) are not part of this model.
- `MenuItemToEmbeddedGenerator`, `CallbackRequirement.generateHeader` and
  `generateSource`, and `CodeVariableExtractor.mapStructSource` are outside the
  model. They appear as function parameters: `StructGenerator`, `HeaderOf`,
  `SourceOf` and `StructSourceOf`.
- `MenuItemHelper.isRuntimeStructureNeeded` is not modelled. Its answer is a field
  of the item (`runtimeNeeded`).
- Order of hash-based collections. `getAllMenuItems` and `getAllSubMenus` return
  hash orders. The model uses pre-order. The properties proved about them
  (membership, counts, the map's contents) do not depend on the order.
- Exceptions inside the `try` block of `startConversion` are caught and logged,
  and the method still returns true. The model's operations in that block cannot
  fail, so nothing is lost.
- Character classes are exact for Basic Latin, Latin-1 and the Unicode space
  separators only. Punctuation outside these blocks is not a separator for
  `makeNameFromVariable`. Letters and digits outside them are rejected by the
  validation patterns. `String.length` counts UTF-16 units, while the model
  counts characters.
- `LINE_BREAK` is the platform line separator. The model fixes it to "\n".
- Item identity is the item's id. Menu items are compared through it in maps and
  in `equals(MenuTree.ROOT)`.
- A generator's tree before `startConversion` is modelled as an empty tree, not
  null.
- Generator.ArduinoGenerator.MakeNameToVar: requires the tree to be well-formed,
  as do the other methods of the class that name items. That means ROOT on top,
  child lists only under sub-menus, and every item once.
  `MenuTree` keeps these invariants itself, so this restates what the source
  guarantees rather than adding a demand on callers.
- Callbacks.SortCallbacksSorted: states sortedness and permutation, but not the
  stability of `List.sort`. The relative order of requirements that compare
  equal is not part of any proved contract.
- Generator.ArduinoGenerator.StartConversion: states the fields set, the output
  file names and the menu structure. It does not state the text written to them.
- CharClasses.ToUpperCase: it is the identity outside Basic Latin and Latin-1,
  where `Character.toUpperCase` does upper-case letters ('ж' becomes 'Ж') and
  some other characters ('ⓐ' becomes 'Ⓐ'). Names written in other scripts
  therefore keep their first character as it is in the model.
- Callbacks.CompareTo: it compares characters by code point, where
  `String.compareTo` compares UTF-16 units. The two orders differ only when a
  character beyond U+FFFF meets one from U+E000 to U+FFFF at the first
  difference.
- Emission.ValuesOf: takes the keys in an order the model leaves open, standing
  for the hash order of the map's values.
- Paths: only Unix paths are modelled. There are no Windows roots or drive letters,
  and names are not normalised (`.` and `..` are kept).

## Findings

| source | as written | input that shows it | evidently intended | confidence | as-written member | corrected member |
|---|---|---|---|---|---|---|
| tcMenuCodePluginApi/src/main/java/com/thecoderscorner/menu/pluginapi/validation/StringPropertyValidationRules.java:48 | The conditional binds last, so variable mode prints only "Variable " and the maximum length is lost. | Rules with variable = true and maxLen 10 or 20 both print "Variable ". | (variable ? "Variable " : "String ") + "validator (max length " + maxLen + ")" | not executed | Validation.ToStringAsWrittenDropsLength | Validation.ToStringInjective |
