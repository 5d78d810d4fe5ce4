/**
 * The application shell's navigation state: the back stack of routes, the
 * bottom bar (enabled once at start, shown or hidden as the user moves
 * between tabs), the top bar derived from it, and the dark-theme preference.
 */
module AppState {
  import opened Wrappers

  datatype Route =
    | Notes
    | Folders
    | Settings
    | Trash
    | Login
    | SignUp
    | Privacy
    | FolderDetail(id: int)
    | NoteDetail(noteId: Option<int>, folderId: Option<int>)

  /** The routes shown as tabs of the bottom bar, in order. */
  const TAB_ROUTES: seq<Route> := [Notes, Folders, Settings]

  /** `isTab`: whether `route` is one of the tab routes. */
  function IsTab(route: Route): (r: bool)
    ensures r <==> route.Notes? || route.Folders? || route.Settings?
  {
    route in TAB_ROUTES
  }

  class AmazingNoteAppState {
    /** The navigation controller's back stack; its last route is the current one. */
    var backStack: seq<Route>
    const isBottomBarEnabled: bool
    var isBottomBarVisible: bool
    /** The dark-theme preference the state reads and writes. */
    var darkTheme: bool
    /** The routes handed to the host by `reportRoute`, oldest first. */
    var reported: seq<Route>

    /** The stack is never empty, and a disabled bottom bar is never shown. */
    ghost predicate Valid()
      reads this
    {
      |backStack| > 0 && (!isBottomBarEnabled ==> !isBottomBarVisible)
    }

    function CurrentRoute(): Route
      reads this
      requires Valid()
    {
      backStack[|backStack| - 1]
    }

    /** `bottomBarTargetVisible`: the bar should show when it is enabled and the current route is a tab. */
    function BottomBarTargetVisible(): (r: bool)
      reads this
      requires Valid()
      ensures r <==> isBottomBarEnabled && (CurrentRoute().Notes? || CurrentRoute().Folders? || CurrentRoute().Settings?)
    {
      isBottomBarEnabled && IsTab(CurrentRoute())
    }

    /** `topBarVisible`: with the bottom bar enabled it follows the bottom bar, otherwise whether the route is a tab. */
    function TopBarVisible(): (r: bool)
      reads this
      requires Valid()
      ensures isBottomBarEnabled ==> (r <==> isBottomBarVisible)
      ensures !isBottomBarEnabled ==> (r <==> IsTab(CurrentRoute()))
    {
      if isBottomBarEnabled then isBottomBarVisible else IsTab(CurrentRoute())
    }

    /** The bottom bar shows exactly what its target says. */
    ghost predicate Settled()
      reads this
      requires Valid()
    {
      isBottomBarVisible == BottomBarTargetVisible()
    }

    /** The state starts on `initialRoute`, with the bar shown when it is enabled and the route is a tab. */
    constructor (initialRoute: Route, showBottomBar: bool, darkThemePreference: bool)
      ensures Valid() && Settled()
      ensures backStack == [initialRoute] && isBottomBarEnabled == showBottomBar
      ensures isBottomBarVisible == (showBottomBar && IsTab(initialRoute))
      ensures darkTheme == darkThemePreference && reported == []
    {
      backStack := [initialRoute];
      isBottomBarEnabled := showBottomBar;
      isBottomBarVisible := showBottomBar && IsTab(initialRoute);
      darkTheme := darkThemePreference;
      reported := [];
    }

    /** `refreshBottomBarVisibility`. */
    method RefreshBottomBarVisibility()
      requires Valid()
      modifies this
      ensures Valid() && Settled()
      ensures backStack == old(backStack) && darkTheme == old(darkTheme) && reported == old(reported)
    {
      isBottomBarVisible := BottomBarTargetVisible();
    }

    /**
     * `navigate`: the route is pushed, unless `singleTop` is set and it is
     * already on top; the new current route is reported and the bar follows it.
     */
    method Navigate(route: Route, singleTop: bool)
      requires Valid()
      modifies this
      ensures Valid() && Settled()
      ensures backStack == if singleTop && old(CurrentRoute()) == route then old(backStack) else old(backStack) + [route]
      ensures CurrentRoute() == route
      ensures reported == old(reported) + [route] && darkTheme == old(darkTheme)
    {
      if !(singleTop && CurrentRoute() == route) {
        backStack := backStack + [route];
      }
      reported := reported + [CurrentRoute()];
      RefreshBottomBarVisibility();
    }

    /**
     * `popBack`: on the root route nothing happens and false is returned;
     * otherwise the top route is removed, the new one reported and the bar
     * refreshed.
     */
    method PopBack() returns (popped: bool)
      requires Valid()
      modifies this
      ensures Valid()
      ensures popped <==> |old(backStack)| > 1
      ensures popped ==>
        backStack == old(backStack)[..|old(backStack)| - 1] && Settled() && reported == old(reported) + [CurrentRoute()]
      ensures !popped ==>
        backStack == old(backStack) && reported == old(reported) && isBottomBarVisible == old(isBottomBarVisible)
      ensures darkTheme == old(darkTheme)
    {
      popped := |backStack| > 1;
      if popped {
        backStack := backStack[..|backStack| - 1];
        reported := reported + [CurrentRoute()];
        RefreshBottomBarVisibility();
      }
    }

    /** `popToRoot`: only the first route stays. */
    method PopToRoot()
      requires Valid()
      modifies this
      ensures Valid() && Settled()
      ensures backStack == [old(backStack)[0]]
      ensures reported == old(reported) + [old(backStack)[0]] && darkTheme == old(darkTheme)
    {
      backStack := [backStack[0]];
      reported := reported + [CurrentRoute()];
      RefreshBottomBarVisibility();
    }

    /** `setRoot`: the stack becomes exactly `[destination]`. */
    method SetRoot(destination: Route)
      requires Valid()
      modifies this
      ensures Valid() && Settled()
      ensures backStack == [destination]
      ensures reported == old(reported) + [destination] && darkTheme == old(darkTheme)
    {
      backStack := [destination];
      reported := reported + [CurrentRoute()];
      RefreshBottomBarVisibility();
    }

    /** `toggleTheme`: the given value, or the opposite of the current theme when none is given. */
    method ToggleTheme(enabled: Option<bool>)
      requires Valid()
      modifies this
      ensures Valid()
      ensures darkTheme == if enabled.Some? then enabled.value else !old(darkTheme)
      ensures backStack == old(backStack) && isBottomBarVisible == old(isBottomBarVisible) && reported == old(reported)
    {
      darkTheme := if enabled.Some? then enabled.value else !darkTheme;
    }

    /** `setBottomBarVisibility`: a disabled bar stays hidden whatever is asked; an enabled one takes `visible`. */
    method SetBottomBarVisibility(visible: bool)
      requires Valid()
      modifies this
      ensures Valid()
      ensures isBottomBarVisible == (isBottomBarEnabled && visible)
      ensures backStack == old(backStack) && darkTheme == old(darkTheme) && reported == old(reported)
    {
      if !isBottomBarEnabled {
        isBottomBarVisible := false;
        return;
      }
      isBottomBarVisible := visible;
    }
  }

  /**
   * Once the bar has been refreshed, the top bar is shown exactly on the tab
   * routes, whether or not the bottom bar is enabled.
   */
  lemma TopBarShowsOnTabs(state: AmazingNoteAppState)
    requires state.Valid() && state.Settled()
    ensures state.TopBarVisible() <==> IsTab(state.CurrentRoute())
  {
  }

  /** The sequence of the unit tests: navigate, pop back, navigate twice and set the root. */
  method NavigationScenario() returns (afterPush: seq<Route>, afterPop: seq<Route>, afterSetRoot: seq<Route>)
    ensures afterPush == [Notes, Folders]
    ensures afterPop == [Notes]
    ensures afterSetRoot == [Settings]
  {
    var state := new AmazingNoteAppState(Notes, true, true);
    state.Navigate(Folders, true);
    afterPush := state.backStack;
    var popped := state.PopBack();
    afterPop := state.backStack;
    state.Navigate(Folders, true);
    state.Navigate(Settings, true);
    state.SetRoot(Settings);
    afterSetRoot := state.backStack;
  }

  /** Setting the theme off and then toggling it with no value turns it on. */
  method ThemeScenario() returns (afterSet: bool, afterToggle: bool)
    ensures !afterSet && afterToggle
  {
    var state := new AmazingNoteAppState(Notes, true, true);
    state.ToggleTheme(Some(false));
    afterSet := state.darkTheme;
    state.ToggleTheme(None);
    afterToggle := state.darkTheme;
  }
}
