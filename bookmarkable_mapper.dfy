/**
 * The bookmarkable request mapper of wicket's `ng` request layer: `mapRequest` classifies the
 * information a mount-specific `parseRequest` extracted from a URL into a bookmarkable, hybrid
 * or listener request, and `mapHandler` turns a handler back into that information for a
 * mount-specific `buildUrl`. Everything here is a pure function of the mapper's hooks.
 */
module BookmarkableMapper {
  import opened Wrappers

  /** A bookmarkable page type, by class name. */
  datatype PageClass = PageClass(name: string)

  /** Page parameters: ordered (key, value) pairs, a key possibly repeated. */
  type PageParameters = seq<(string, string)>

  /** The identity of a request listener interface (a callback contract such as a link click). */
  datatype ListenerInterface = ListenerInterface(id: nat)

  /** The page part of the URL information; the mapper reads only its page id. */
  datatype PageInfo = PageInfo(pageId: Option<int>)

  /** The component part: which callback of which component (or behavior) at which render count. */
  datatype ComponentInfo = ComponentInfo(
    renderCount: Option<int>,
    listenerInterface: string,
    componentPath: string,
    behaviorIndex: Option<int>)

  datatype PageComponentInfo = PageComponentInfo(pageInfo: PageInfo, componentInfo: Option<ComponentInfo>)

  /** The information a URL carries for this mapper: the page class is mandatory, the rest optional. */
  datatype UrlInfo = UrlInfo(
    pageComponentInfo: Option<PageComponentInfo>,
    pageClass: PageClass,
    pageParameters: Option<PageParameters>)

  /** The exception `Check.argumentNotNull` raises. */
  datatype IllegalArgument = IllegalArgument(argument: string)

  /**
   * The `UrlInfo` constructor: refuses a null page class and stores the other two arguments
   * as they are (a null parameters object stays null).
   */
  function NewUrlInfo(pageComponentInfo: Option<PageComponentInfo>, pageClass: Option<PageClass>,
                      pageParameters: Option<PageParameters>): (r: Result<UrlInfo, IllegalArgument>)
    ensures r.Failure? <==> pageClass.None?
    ensures r.Failure? ==> r.error == IllegalArgument("pageClass")
    ensures r.Success? ==> && r.value.pageComponentInfo == pageComponentInfo
                           && Some(r.value.pageClass) == pageClass
                           && r.value.pageParameters == pageParameters
  {
    match pageClass
    case None => Failure(IllegalArgument("pageClass"))
    case Some(c) => Success(UrlInfo(pageComponentInfo, c, pageParameters))
  }

  /** A page provider, as the record of the arguments it was constructed with. */
  datatype PageProvider =
    | ClassProvider(pageClass: PageClass, pageParameters: Option<PageParameters>)
    | InstanceProvider(pageId: int, pageClass: PageClass, pageParameters: Option<PageParameters>,
                       renderCount: Option<int>)

  /** A page-and-component provider, as the record of its constructor arguments. */
  datatype PageAndComponentProvider = PageAndComponentProvider(
    pageId: int,
    pageClass: PageClass,
    pageParameters: Option<PageParameters>,
    renderCount: Option<int>,
    componentPath: string)

  /** The handlers `mapRequest` produces. */
  datatype DecodedHandler =
    | RenderPage(pageProvider: PageProvider)
    | ListenerInvocation(provider: PageAndComponentProvider, listenerInterface: ListenerInterface,
                         behaviorIndex: Option<int>)

  /** What the mapper asks of a page instance. */
  datatype Page = Page(
    pageClass: PageClass,
    pageId: int,
    renderCount: int,
    stateless: bool,
    createdBookmarkable: bool)

  /** The handlers `mapHandler` is given; `OtherRequest` stands for every other handler type. */
  datatype RequestHandler =
    | BookmarkablePageRequest(pageClass: PageClass, pageParameters: Option<PageParameters>)
    | RenderPageRequest(page: Page, pageParameters: Option<PageParameters>)
    | BookmarkableListenerRequest(page: Page, componentPath: string, listenerInterface: ListenerInterface,
                                  behaviorIndex: Option<int>, pageParameters: Option<PageParameters>)
    | OtherRequest

  /**
   * A concrete mapper: the template methods a subclass supplies, and the listener-interface
   * registry (name to interface, partial; interface to name, total).
   */
  datatype Mapper<!Request, Url> = Mapper(
    parseRequest: Request -> Option<UrlInfo>,
    buildUrl: UrlInfo -> Url,
    pageMustHaveBeenCreatedBookmarkable: bool,
    checkPageClass: PageClass -> bool,
    listenerInterfaces: map<string, ListenerInterface>,
    listenerInterfaceName: ListenerInterface -> string)

  /** The default `checkPageClass` accepts every page class. */
  function DefaultCheckPageClass(pageClass: PageClass): (accepted: bool)
    ensures accepted
  {
    true
  }

  /** `processBookmarkable`: render a page created from its class and parameters. */
  function ProcessBookmarkable(pageClass: PageClass, pageParameters: Option<PageParameters>): DecodedHandler {
    RenderPage(ClassProvider(pageClass, pageParameters))
  }

  /** `processHybrid`: render the existing page instance with the given id. */
  function ProcessHybrid(pageInfo: PageInfo, pageClass: PageClass, pageParameters: Option<PageParameters>,
                         renderCount: Option<int>): DecodedHandler
    requires pageInfo.pageId.Some?
  {
    RenderPage(InstanceProvider(pageInfo.pageId.value, pageClass, pageParameters, renderCount))
  }

  /** `processListener`: invoke the named listener interface, or nothing when the name is unknown. */
  function ProcessListener<Request, Url>(m: Mapper<Request, Url>, info: PageComponentInfo, pageClass: PageClass,
                                         pageParameters: Option<PageParameters>): Option<DecodedHandler>
    requires info.pageInfo.pageId.Some? && info.componentInfo.Some?
  {
    var componentInfo := info.componentInfo.value;
    var renderCount := if info.componentInfo.Some? then componentInfo.renderCount else None;
    if componentInfo.listenerInterface in m.listenerInterfaces then
      var provider := PageAndComponentProvider(info.pageInfo.pageId.value, pageClass, pageParameters,
                                               renderCount, componentInfo.componentPath);
      Some(ListenerInvocation(provider, m.listenerInterfaces[componentInfo.listenerInterface],
                              componentInfo.behaviorIndex))
    else
      None
  }

  /** `mapRequest`: parse, then classify by which parts of the page/component information are present. */
  function MapRequest<Request, Url>(m: Mapper<Request, Url>, request: Request): (r: Option<DecodedHandler>)
    ensures m.parseRequest(request).None? ==> r.None?
    // bookmarkable: no page instance information; only the class and parameters are used
    ensures m.parseRequest(request).Some? ==>
      var u := m.parseRequest(request).value;
      (u.pageComponentInfo.None? || u.pageComponentInfo.value.pageInfo.pageId.None?) ==>
        r == Some(RenderPage(ClassProvider(u.pageClass, u.pageParameters)))
    // hybrid: a page id but no component; the render count is not forwarded
    ensures m.parseRequest(request).Some? ==>
      var u := m.parseRequest(request).value;
      (u.pageComponentInfo.Some? && u.pageComponentInfo.value.pageInfo.pageId.Some? &&
       u.pageComponentInfo.value.componentInfo.None?) ==>
        r == Some(RenderPage(InstanceProvider(u.pageComponentInfo.value.pageInfo.pageId.value, u.pageClass,
                                              u.pageParameters, None)))
    // listener: page id and component; the name must resolve in the registry
    ensures m.parseRequest(request).Some? ==>
      var u := m.parseRequest(request).value;
      (u.pageComponentInfo.Some? && u.pageComponentInfo.value.pageInfo.pageId.Some? &&
       u.pageComponentInfo.value.componentInfo.Some?) ==>
        var id := u.pageComponentInfo.value.pageInfo.pageId.value;
        var c := u.pageComponentInfo.value.componentInfo.value;
        r == if c.listenerInterface in m.listenerInterfaces
             then Some(ListenerInvocation(
                    PageAndComponentProvider(id, u.pageClass, u.pageParameters, c.renderCount, c.componentPath),
                    m.listenerInterfaces[c.listenerInterface], c.behaviorIndex))
             else None
    // the three branches are exhaustive: no match, or an unknown listener interface
    ensures r.None? <==>
      (m.parseRequest(request).None? ||
       var u := m.parseRequest(request).value;
       u.pageComponentInfo.Some? && u.pageComponentInfo.value.pageInfo.pageId.Some? &&
       u.pageComponentInfo.value.componentInfo.Some? &&
       u.pageComponentInfo.value.componentInfo.value.listenerInterface !in m.listenerInterfaces)
  {
    match m.parseRequest(request)
    case None => None
    case Some(urlInfo) =>
      var info := urlInfo.pageComponentInfo;
      var pageClass := urlInfo.pageClass;
      var pageParameters := urlInfo.pageParameters;
      if info.None? || info.value.pageInfo.pageId.None? then
        Some(ProcessBookmarkable(pageClass, pageParameters))
      else if info.value.pageInfo.pageId.Some? && info.value.componentInfo.None? then
        Some(ProcessHybrid(info.value.pageInfo, pageClass, pageParameters, None))
      else if info.value.componentInfo.Some? then
        ProcessListener(m, info.value, pageClass, pageParameters)
      else
        None
  }

  /** The `UrlInfo` that `mapHandler` hands to `buildUrl`, or nothing when it declines the handler. */
  function UrlInfoFor<Request, Url>(m: Mapper<Request, Url>, handler: RequestHandler): (r: Option<UrlInfo>)
    // bookmarkable page: page information without a page id, no component information
    ensures handler.BookmarkablePageRequest? ==>
      r == if m.checkPageClass(handler.pageClass)
           then Some(UrlInfo(Some(PageComponentInfo(PageInfo(None), None)), handler.pageClass, handler.pageParameters))
           else None
    // render page: a hybrid URL only when allowed; a stateless page carries no page information
    ensures handler.RenderPageRequest? ==>
      var page := handler.page;
      r == if !m.checkPageClass(page.pageClass) then None
           else if m.pageMustHaveBeenCreatedBookmarkable && !page.createdBookmarkable then None
           else if page.stateless then Some(UrlInfo(None, page.pageClass, handler.pageParameters))
           else Some(UrlInfo(Some(PageComponentInfo(PageInfo(Some(page.pageId)), None)), page.pageClass,
                             handler.pageParameters))
    // bookmarkable listener: full page and component information
    ensures handler.BookmarkableListenerRequest? ==>
      var page := handler.page;
      r == if !m.checkPageClass(page.pageClass) then None
           else Some(UrlInfo(
                  Some(PageComponentInfo(
                    PageInfo(Some(page.pageId)),
                    Some(ComponentInfo(Some(page.renderCount), m.listenerInterfaceName(handler.listenerInterface),
                                       handler.componentPath, handler.behaviorIndex)))),
                  page.pageClass, handler.pageParameters))
    ensures handler.OtherRequest? ==> r.None?
  {
    match handler
    case BookmarkablePageRequest(pageClass, pageParameters) =>
      if !m.checkPageClass(pageClass) then None
      else
        var info := PageInfo(None);
        Some(UrlInfo(Some(PageComponentInfo(info, None)), pageClass, pageParameters))
    case RenderPageRequest(page, pageParameters) =>
      if !m.checkPageClass(page.pageClass) then None
      else if !m.pageMustHaveBeenCreatedBookmarkable || page.createdBookmarkable then
        var info := if !page.stateless then Some(PageInfo(Some(page.pageId))) else None;
        var pageComponentInfo := if info.Some? then Some(PageComponentInfo(info.value, None)) else None;
        Some(UrlInfo(pageComponentInfo, page.pageClass, pageParameters))
      else None
    case BookmarkableListenerRequest(page, componentPath, listenerInterface, behaviorIndex, pageParameters) =>
      if !m.checkPageClass(page.pageClass) then None
      else
        var pageInfo := PageInfo(Some(page.pageId));
        var componentInfo := ComponentInfo(Some(page.renderCount), m.listenerInterfaceName(listenerInterface),
                                           componentPath, behaviorIndex);
        Some(UrlInfo(Some(PageComponentInfo(pageInfo, Some(componentInfo))), page.pageClass, pageParameters))
    case OtherRequest => None
  }

  /** `mapHandler`: the URL `buildUrl` makes of the handler's information, or null when the mapper declines. */
  function MapHandler<Request, Url>(m: Mapper<Request, Url>, handler: RequestHandler): (r: Option<Url>)
    ensures r.None? <==> UrlInfoFor(m, handler).None?
    ensures r.Some? ==> r.value == m.buildUrl(UrlInfoFor(m, handler).value)
  {
    match UrlInfoFor(m, handler)
    case None => None
    case Some(urlInfo) => Some(m.buildUrl(urlInfo))
  }

  /** With the default `checkPageClass` a bookmarkable page handler always gets a URL. */
  lemma DefaultCheckAcceptsBookmarkable<Request, Url>(m: Mapper<Request, Url>, pageClass: PageClass,
                                                      pageParameters: Option<PageParameters>)
    ensures MapHandler(m.(checkPageClass := DefaultCheckPageClass), BookmarkablePageRequest(pageClass, pageParameters)).Some?
  {
  }

  /** The registry resolves the interface's name back to the interface. */
  predicate Registered<Request, Url>(m: Mapper<Request, Url>, listenerInterface: ListenerInterface) {
    var name := m.listenerInterfaceName(listenerInterface);
    name in m.listenerInterfaces && m.listenerInterfaces[name] == listenerInterface
  }

  /**
   * Round trip: when `parseRequest` recovers the information `mapHandler` built the URL from
   * (the contract a subclass's `buildUrl` and `parseRequest` promise each other), `mapRequest`
   * gives back a handler for the same page: a fresh one for a bookmarkable handler or a
   * stateless page, the same instance (without its render count) for a stateful page, and the
   * same listener, component and behavior when the interface is registered.
   */
  lemma MapHandlerThenMapRequest<Request, Url>(m: Mapper<Request, Url>, handler: RequestHandler,
                                               request: Request, urlInfo: UrlInfo)
    requires UrlInfoFor(m, handler) == Some(urlInfo) && m.parseRequest(request) == Some(urlInfo)
    ensures handler.BookmarkablePageRequest? ==>
      MapRequest(m, request) == Some(RenderPage(ClassProvider(handler.pageClass, handler.pageParameters)))
    ensures handler.RenderPageRequest? ==>
      var page := handler.page;
      MapRequest(m, request) == Some(RenderPage(
        if page.stateless then ClassProvider(page.pageClass, handler.pageParameters)
        else InstanceProvider(page.pageId, page.pageClass, handler.pageParameters, None)))
    ensures handler.BookmarkableListenerRequest? ==>
      var page := handler.page;
      var name := m.listenerInterfaceName(handler.listenerInterface);
      MapRequest(m, request) ==
        if name in m.listenerInterfaces
        then Some(ListenerInvocation(
               PageAndComponentProvider(page.pageId, page.pageClass, handler.pageParameters,
                                        Some(page.renderCount), handler.componentPath),
               m.listenerInterfaces[name], handler.behaviorIndex))
        else None
    ensures handler.BookmarkableListenerRequest? && Registered(m, handler.listenerInterface) ==>
      MapRequest(m, request).Some? && MapRequest(m, request).value.listenerInterface == handler.listenerInterface
    ensures !handler.OtherRequest?
  {
  }
}
