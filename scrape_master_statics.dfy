/**
 * The two static fields of ScrapeMaster: the shutdown flag the terminal task
 * raises and the counter of species whose task ran to its end. Java keeps
 * them in static fields shared by every worker thread; here they live in one
 * object that the coordinator owns and hands to each worker. Updates are
 * modelled one at a time (no interleaving).
 */
module ScrapeMasterStatics {

  class Statics {
    var shutdownScraper: bool
    var numSpecies: int

    /** The static initialisers: the flag is down and no species has been counted. */
    constructor ()
      ensures !shutdownScraper && numSpecies == 0
    {
      shutdownScraper := false;
      numSpecies := 0;
    }

    /** `shutdown()`: raises the flag; raising it again changes nothing, and no method lowers it. */
    method Shutdown()
      modifies this`shutdownScraper
      ensures shutdownScraper
    {
      shutdownScraper := true;
    }

    /** `incrementNumSpecies()`: exactly one more species. */
    method IncrementNumSpecies()
      modifies this`numSpecies
      ensures numSpecies == old(numSpecies) + 1
    {
      numSpecies := numSpecies + 1;
    }
  }
}
