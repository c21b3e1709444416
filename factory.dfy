/**
 * service/PathfindingServiceFactory.java: the registry that picks a search
 * service for a request's algorithm. Spring hands the constructor every
 * PathfindingService bean; each is filed under the algorithm its name
 * denotes, and a name that denotes none is skipped.
 */
module ServiceFactory {
  import opened Wrappers
  import opened Requests
  import BfsService
  import DijkstraService
  import AStarService
  import DfsService
  import LegacyBfsService
  import LegacyDijkstraService
  import LegacyAStarService

  /**
   * The PathfindingService implementations of the backend, and any other
   * bean that reports a name of its own.
   */
  datatype Service =
    | CurrentBfs | CurrentDijkstra | CurrentAStar | DepthFirst
    | LegacyBfs | LegacyDijkstra | LegacyAStar
    | Other(name: string)

  /** getAlgorithmName of each implementation. */
  function AlgorithmNameOf(s: Service): string {
    match s
    case CurrentBfs => BfsService.NAME
    case CurrentDijkstra => DijkstraService.NAME
    case CurrentAStar => AStarService.NAME
    case DepthFirst => DfsService.NAME
    case LegacyBfs => LegacyBfsService.NAME
    case LegacyDijkstra => LegacyDijkstraService.NAME
    case LegacyAStar => LegacyAStarService.NAME
    case Other(name) => name
  }

  /** The enum constant's name, as Java's toString writes it. */
  function EnumName(a: Algorithm): string {
    match a
    case Dfs => "DFS"
    case Bfs => "BFS"
    case Dijkstra => "DIJKSTRA"
    case AStar => "A_STAR"
  }

  /**
   * mapServiceToAlgorithm: the switch on the service's name. Exactly the
   * four enum names are recognised, each as its own constant; null stands
   * for every other name.
   */
  function MapServiceToAlgorithm(name: string): (r: Option<Algorithm>)
    ensures r.Some? <==> name in {"DFS", "BFS", "DIJKSTRA", "A_STAR"}
    ensures r.Some? ==> EnumName(r.value) == name
  {
    match name
    case "DFS" => Some(Algorithm.Dfs)
    case "BFS" => Some(Algorithm.Bfs)
    case "DIJKSTRA" => Some(Algorithm.Dijkstra)
    case "A_STAR" => Some(Algorithm.AStar)
    case _ => None
  }

  /** Every algorithm's enum name maps back to it, so each algorithm has exactly one name. */
  lemma NamesRoundTrip(a: Algorithm)
    ensures MapServiceToAlgorithm(EnumName(a)) == Some(a)
  {
  }

  /** Each modelled service reports the name of the algorithm it implements; the legacy ones share it with the current ones. */
  lemma ServicesNamed()
    ensures MapServiceToAlgorithm(AlgorithmNameOf(CurrentBfs)) == Some(Algorithm.Bfs)
    ensures MapServiceToAlgorithm(AlgorithmNameOf(LegacyBfs)) == Some(Algorithm.Bfs)
    ensures MapServiceToAlgorithm(AlgorithmNameOf(CurrentDijkstra)) == Some(Algorithm.Dijkstra)
    ensures MapServiceToAlgorithm(AlgorithmNameOf(LegacyDijkstra)) == Some(Algorithm.Dijkstra)
    ensures MapServiceToAlgorithm(AlgorithmNameOf(CurrentAStar)) == Some(Algorithm.AStar)
    ensures MapServiceToAlgorithm(AlgorithmNameOf(LegacyAStar)) == Some(Algorithm.AStar)
    ensures MapServiceToAlgorithm(AlgorithmNameOf(DepthFirst)) == Some(Algorithm.Dfs)
  {
  }

  /** The map the constructor's loop leaves after the given services: each put overwrites an earlier one. */
  function Registry(serviceList: seq<Service>): map<Algorithm, Service> {
    if serviceList == [] then map[]
    else
      var s := serviceList[|serviceList| - 1];
      var m := Registry(serviceList[..|serviceList| - 1]);
      match MapServiceToAlgorithm(AlgorithmNameOf(s))
      case Some(a) => m[a := s]
      case None => m
  }

  /** The service at index i of the list is filed under algorithm a. */
  predicate FiledUnder(serviceList: seq<Service>, i: int, a: Algorithm)
    requires 0 <= i < |serviceList|
  {
    MapServiceToAlgorithm(AlgorithmNameOf(serviceList[i])) == Some(a)
  }

  /** The index of the last service of the list filed under a, or -1 when none is. */
  function LastFiled(serviceList: seq<Service>, a: Algorithm): (i: int)
    ensures -1 <= i < |serviceList|
    ensures i >= 0 ==> FiledUnder(serviceList, i, a)
    ensures forall j :: i < j < |serviceList| ==> !FiledUnder(serviceList, j, a)
  {
    if serviceList == [] then -1
    else if FiledUnder(serviceList, |serviceList| - 1, a) then |serviceList| - 1
    else
      var i := LastFiled(serviceList[..|serviceList| - 1], a);
      assert forall j :: 0 <= j < |serviceList| - 1 ==>
        FiledUnder(serviceList[..|serviceList| - 1], j, a) == FiledUnder(serviceList, j, a);
      i
  }

  /**
   * An algorithm is registered exactly when some service of the list is
   * filed under it, and then it holds the LAST such service of the list.
   */
  lemma {:induction false} RegistryLastWins(serviceList: seq<Service>, a: Algorithm)
    ensures a in Registry(serviceList) <==> LastFiled(serviceList, a) >= 0
    ensures a in Registry(serviceList) ==> Registry(serviceList)[a] == serviceList[LastFiled(serviceList, a)]
    decreases |serviceList|
  {
    if serviceList != [] {
      RegistryLastWins(serviceList[..|serviceList| - 1], a);
    }
  }

  /** Whatever the list, every registered service's name maps back to the algorithm it is filed under. */
  lemma {:induction false} RegistryNamesMatch(serviceList: seq<Service>)
    ensures forall a :: a in Registry(serviceList) ==> MapServiceToAlgorithm(AlgorithmNameOf(Registry(serviceList)[a])) == Some(a)
    decreases |serviceList|
  {
    if serviceList != [] {
      RegistryNamesMatch(serviceList[..|serviceList| - 1]);
    }
  }

  /** The factory bean: its services map is filled once by the constructor and only read afterwards. */
  class PathfindingServiceFactory {
    var services: map<Algorithm, Service>

    /** Every registered service reports the name of the algorithm it is filed under. */
    ghost predicate Valid()
      reads this
    {
      forall a :: a in services ==> MapServiceToAlgorithm(AlgorithmNameOf(services[a])) == Some(a)
    }

    /** The constructor's loop: put each service with a recognised name under its algorithm, in list order. */
    constructor (serviceList: seq<Service>)
      ensures services == Registry(serviceList)
      ensures Valid()
    {
      services := map[];
      new;
      for k := 0 to |serviceList|
        invariant services == Registry(serviceList[..k])
      {
        assert serviceList[..k + 1][..k] == serviceList[..k];
        var algorithm := MapServiceToAlgorithm(AlgorithmNameOf(serviceList[k]));
        if algorithm.Some? {
          services := services[algorithm.value := serviceList[k]];
        }
      }
      assert serviceList[..|serviceList|] == serviceList;
      RegistryNamesMatch(serviceList);
    }

    /**
     * getService: the registered service, whose name maps back to the
     * requested algorithm, or the IllegalArgumentException when none is
     * registered.
     */
    method GetService(algorithm: Algorithm) returns (r: Result<Service, string>)
      requires Valid()
      ensures r.Success? <==> algorithm in services
      ensures r.Success? ==> r.value == services[algorithm]
      ensures r.Success? ==> MapServiceToAlgorithm(AlgorithmNameOf(r.value)) == Some(algorithm)
      ensures r.Failure? ==> r.error == "No service found for algorithm: " + EnumName(algorithm)
    {
      if algorithm !in services {
        return Failure("No service found for algorithm: " + EnumName(algorithm));
      }
      r := Success(services[algorithm]);
    }
  }
}
